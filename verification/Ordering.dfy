/** Python's `sorted`: a stable sort under a strict weak order, and the code-point
    order of strings under which node names are sorted. */
module Ordering {

  /** The comparison asks whether the first argument must come strictly earlier. */
  ghost predicate StrictWeak<T(!new)>(lt: (T, T) -> bool) {
    (forall x, y :: lt(x, y) ==> !lt(y, x)) &&
    (forall x, y, z :: lt(x, z) ==> lt(x, y) || lt(y, z))
  }

  ghost predicate Ordered<T>(lt: (T, T) -> bool, s: seq<T>) {
    forall i, j :: 0 <= i < j < |s| ==> !lt(s[j], s[i])
  }

  ghost predicate Distinct<T>(s: seq<T>) {
    forall i, j :: 0 <= i < j < |s| ==> s[i] != s[j]
  }

  function Insert<T>(lt: (T, T) -> bool, x: T, s: seq<T>): (r: seq<T>)
    ensures |r| == |s| + 1
  {
    if s == [] then [x]
    else if lt(x, s[0]) then [x] + s
    else [s[0]] + Insert(lt, x, s[1..])
  }

  function Sorted<T>(lt: (T, T) -> bool, s: seq<T>): (r: seq<T>)
    ensures |r| == |s|
  {
    if s == [] then [] else Insert(lt, s[|s| - 1], Sorted(lt, s[..|s| - 1]))
  }

  lemma {:induction false} InsertKeeps<T(!new)>(lt: (T, T) -> bool, x: T, s: seq<T>)
    requires StrictWeak(lt) && Ordered(lt, s)
    ensures Ordered(lt, Insert(lt, x, s))
    ensures multiset(Insert(lt, x, s)) == multiset(s) + multiset{x}
  {
    if s != [] {
      assert s == [s[0]] + s[1..];
      if lt(x, s[0]) {
        forall j | 0 <= j < |s| ensures !lt(s[j], x) {
          assert j > 0 ==> !lt(s[j], s[0]);
        }
      } else {
        InsertKeeps(lt, x, s[1..]);
        var t := Insert(lt, x, s[1..]);
        forall j | 0 <= j < |t| ensures !lt(t[j], s[0]) {
          InsertMember(lt, x, s, t, j);
        }
        PrependOrdered(lt, s[0], t);
      }
    }
  }

  lemma InsertMember<T(!new)>(lt: (T, T) -> bool, x: T, s: seq<T>, t: seq<T>, j: nat)
    requires s != [] && Ordered(lt, s) && !lt(x, s[0]) && StrictWeak(lt)
    requires multiset(t) == multiset(s[1..]) + multiset{x} && j < |t|
    ensures !lt(t[j], s[0])
  {
    assert t[j] in multiset(t);
    if t[j] != x {
      assert t[j] in s[1..];
      var k :| 0 <= k < |s[1..]| && s[1..][k] == t[j];
      assert s[k + 1] == t[j];
    }
  }

  lemma PrependOrdered<T>(lt: (T, T) -> bool, x: T, t: seq<T>)
    requires Ordered(lt, t) && forall j :: 0 <= j < |t| ==> !lt(t[j], x)
    ensures Ordered(lt, [x] + t)
  {
  }

  /** The sorted sequence is ordered and a permutation of its input. */
  lemma {:induction false} SortedIsOrdered<T(!new)>(lt: (T, T) -> bool, s: seq<T>)
    requires StrictWeak(lt)
    ensures Ordered(lt, Sorted(lt, s))
    ensures multiset(Sorted(lt, s)) == multiset(s)
  {
    if s != [] {
      assert s == s[..|s| - 1] + [s[|s| - 1]];
      SortedIsOrdered(lt, s[..|s| - 1]);
      InsertKeeps(lt, s[|s| - 1], Sorted(lt, s[..|s| - 1]));
    }
  }

  // ---- stability ------------------------------------------------------------------

  /** Where x first stands in s. */
  ghost function IndexOf<T>(s: seq<T>, x: T): (i: nat)
    requires x in s
    ensures i < |s| && s[i] == x && forall k :: 0 <= k < i ==> s[k] != x
  {
    if s[0] == x then 0 else 1 + IndexOf(s[1..], x)
  }

  ghost predicate Tied<T>(lt: (T, T) -> bool, x: T, y: T) { !lt(x, y) && !lt(y, x) }

  /** Elements that tie stand in r as they stood in s. */
  ghost predicate Stable<T>(lt: (T, T) -> bool, s: seq<T>, r: seq<T>) {
    (forall x :: x in r ==> x in s) &&
    forall i, j :: 0 <= i < j < |r| && Tied(lt, r[i], r[j]) ==> IndexOf(s, r[i]) < IndexOf(s, r[j])
  }

  /** An element is inserted behind those it ties with and before those it must precede. */
  lemma {:induction false} InsertPlace<T(!new)>(lt: (T, T) -> bool, x: T, s: seq<T>) returns (p: nat)
    requires StrictWeak(lt) && Ordered(lt, s)
    ensures p <= |s| && Insert(lt, x, s) == s[..p] + [x] + s[p..]
    ensures forall q :: p <= q < |s| ==> lt(x, s[q])
  {
    if s == [] {
      p := 0;
    } else if lt(x, s[0]) {
      p := 0;
      forall q | 0 <= q < |s| ensures lt(x, s[q]) {
        assert q > 0 ==> !lt(s[q], s[0]);
      }
    } else {
      var k := InsertPlace(lt, x, s[1..]);
      p := k + 1;
      assert s[..p] == [s[0]] + s[1..][..k] && s[p..] == s[1..][k..];
      forall q | p <= q < |s| ensures lt(x, s[q]) {
        assert s[q] == s[1..][q - 1];
      }
    }
  }

  lemma IndexInFront<T>(s: seq<T>, x: T, y: T)
    requires y in s
    ensures y in s + [x] && IndexOf(s + [x], y) == IndexOf(s, y)
  {
    var i := IndexOf(s, y);
    assert (s + [x])[i] == y;
    assert forall k :: 0 <= k < i ==> (s + [x])[k] == s[k];
  }

  lemma {:induction false} SortedIsStable<T(!new)>(lt: (T, T) -> bool, s: seq<T>)
    requires StrictWeak(lt) && Distinct(s)
    ensures Stable(lt, s, Sorted(lt, s))
  {
    if s != [] {
      var front, x := s[..|s| - 1], s[|s| - 1];
      assert s == front + [x];
      SortedIsStable(lt, front);
      SortedIsOrdered(lt, front);
      var t := Sorted(lt, front);
      var p := InsertPlace(lt, x, t);
      StableInsert(lt, front, x, t, p);
    }
  }

  lemma StableInsert<T(!new)>(lt: (T, T) -> bool, s: seq<T>, x: T, t: seq<T>, p: nat)
    requires Stable(lt, s, t) && p <= |t| && x !in s
    requires forall q :: p <= q < |t| ==> lt(x, t[q])
    ensures Stable(lt, s + [x], t[..p] + [x] + t[p..])
  {
    var r := t[..p] + [x] + t[p..];
    forall y | y in s ensures y in s + [x] && IndexOf(s + [x], y) == IndexOf(s, y) {
      IndexInFront(s, x, y);
    }
    forall i, j | 0 <= i < j < |r| && Tied(lt, r[i], r[j]) ensures IndexOf(s + [x], r[i]) < IndexOf(s + [x], r[j]) {
      if i != p && j != p {
        var i', j' := if i < p then i else i - 1, if j < p then j else j - 1;
        assert r[i] == t[i'] && r[j] == t[j'];
      } else if j == p {
        assert r[i] == t[i];
        assert (s + [x])[|s|] == x;
      }
    }
  }

  // ---- the keys of a dictionary, in the order they were inserted ------------------------------

  /** Each element once, where it first occurs. */
  function Firsts<T(==,!new)>(s: seq<T>): (r: seq<T>)
    ensures Distinct(r) && forall x :: x in r <==> x in s
  {
    if s == [] then []
    else
      var front, x := s[..|s| - 1], s[|s| - 1];
      assert s == front + [x];
      Inserted(Firsts(front), x)
  }

  /** They come in the order in which they first occur. */
  lemma {:induction false} FirstsInOrder<T(!new)>(s: seq<T>, i: nat, j: nat)
    requires i < j < |Firsts(s)|
    ensures IndexOf(s, Firsts(s)[i]) < IndexOf(s, Firsts(s)[j])
  {
    var front, x := s[..|s| - 1], s[|s| - 1];
    assert s == front + [x];
    IndexInFront(front, x, Firsts(front)[i]);
    if j < |Firsts(front)| {
      FirstsInOrder(front, i, j);
      IndexInFront(front, x, Firsts(front)[j]);
    }
  }

  function Inserted<T(==)>(keys: seq<T>, x: T): seq<T> {
    if x in keys then keys else keys + [x]
  }

  lemma FirstsOneMore<T(!new)>(s: seq<T>, x: T)
    ensures Firsts(s + [x]) == Inserted(Firsts(s), x)
  {
    assert (s + [x])[..|s|] == s;
  }

  lemma {:induction false} FirstsHead<T(!new)>(s: seq<T>)
    requires s != []
    ensures Firsts(s) != [] && Firsts(s)[0] == s[0]
  {
    if |s| > 1 { FirstsHead(s[..|s| - 1]); }
  }

  ghost predicate Precedes<T(!new)>(s: seq<T>, x: T, y: T) {
    exists i, j :: 0 <= i < j < |s| && s[i] == x && s[j] == y
  }

  /** What stands before x first does, first occurs before it. */
  lemma EarlierIsListedFirst<T(!new)>(s: seq<T>, x: T, q: nat)
    requires x in s && q < IndexOf(s, x)
    ensures Precedes(Firsts(s), s[q], x)
  {
    assert s[q] in Firsts(s) && x in Firsts(s);
    var i :| 0 <= i < |Firsts(s)| && Firsts(s)[i] == s[q];
    var j :| 0 <= j < |Firsts(s)| && Firsts(s)[j] == x;
    if j < i { FirstsInOrder(s, j, i); }
  }

  lemma OnePrecedes<T(!new)>(s: seq<T>, x: T, y: T)
    requires x in s && y in s && x != y
    ensures Precedes(s, x, y) || Precedes(s, y, x)
  {
    var i :| 0 <= i < |s| && s[i] == x;
    var j :| 0 <= j < |s| && s[j] == y;
  }

  lemma SomeMember<T>(s: set<T>) returns (x: T)
    requires s != {}
    ensures x in s
  {
    x :| x in s;
  }

  /** Taking the same element out of two lists of the same elements. */
  lemma Removed<T>(s: seq<T>, t: seq<T>, i: nat)
    requires s != [] && multiset(s) == multiset(t) && i < |t| && t[i] == s[|s| - 1]
    ensures multiset(s[..|s| - 1]) == multiset(t[..i] + t[i + 1..])
    ensures |s| == |t|
  {
    assert |multiset(s)| == |s| && |multiset(t)| == |t|;
    var x := t[i];
    assert s == s[..|s| - 1] + [x];
    assert t == t[..i] + [x] + t[i + 1..];
    assert multiset(s[..|s| - 1]) == multiset(s) - multiset{x};
    assert multiset(t[..i] + t[i + 1..]) == multiset(t) - multiset{x};
  }

  lemma SameMembers<T(!new)>(s: seq<T>, t: seq<T>)
    requires multiset(s) == multiset(t)
    ensures forall x :: x in s <==> x in t
  {
    forall x ensures x in s <==> x in t {
      assert x in s <==> x in multiset(s);
      assert x in t <==> x in multiset(t);
    }
  }

  lemma SamePermutationDistinct<T(!new)>(s: seq<T>, t: seq<T>)
    requires multiset(s) == multiset(t) && Distinct(s)
    ensures Distinct(t)
  {
    DistinctMultiset(s);
    forall i, j | 0 <= i < j < |t| ensures t[i] != t[j] {
      assert t == t[..i] + [t[i]] + t[i + 1..j] + [t[j]] + t[j + 1..];
      assert multiset(t)[t[i]] <= 1;
    }
  }

  lemma {:induction false} DistinctMultiset<T(!new)>(s: seq<T>)
    requires Distinct(s)
    ensures forall x :: multiset(s)[x] <= 1
  {
    if s != [] {
      DistinctMultiset(s[1..]);
      assert s == [s[0]] + s[1..];
      assert s[0] !in s[1..];
    }
  }

  predicate IntBefore(a: int, b: int) { a < b }

  /** Python compares strings code point by code point. */
  predicate Before(a: string, b: string) {
    if b == [] then false
    else if a == [] then true
    else a[0] < b[0] || (a[0] == b[0] && Before(a[1..], b[1..]))
  }

  /** Where two names first differ, or one of them ends. */
  lemma {:induction false} FirstDifference(a: string, b: string) returns (i: nat)
    ensures i <= |a| && i <= |b| && a[..i] == b[..i] && (i < |a| && i < |b| ==> a[i] != b[i])
    ensures Before(a, b) <==> i < |b| && (i == |a| || a[i] < b[i])
  {
    if a == [] || b == [] || a[0] != b[0] {
      i := 0;
    } else {
      var k := FirstDifference(a[1..], b[1..]);
      i := k + 1;
      assert a[..i] == [a[0]] + a[1..][..k] && b[..i] == [b[0]] + b[1..][..k];
    }
  }

  lemma SamePrefix(a: string, b: string, n: nat)
    requires n <= |a| && n <= |b| && a[..n] == b[..n]
    ensures forall k :: 0 <= k < n ==> a[k] == b[k]
  {
    forall k | 0 <= k < n ensures a[k] == b[k] { assert a[..n][k] == b[..n][k]; }
  }

  /** What two names begin with alike does not matter. */
  lemma {:induction false} BeforeSkips(a: string, b: string, n: nat)
    requires n <= |a| && n <= |b| && a[..n] == b[..n]
    ensures Before(a, b) <==> Before(a[n..], b[n..])
  {
    if n == 0 {
      assert a[0..] == a && b[0..] == b;
    } else {
      SamePrefix(a, b, n);
      assert a[1..][..n - 1] == b[1..][..n - 1];
      BeforeSkips(a[1..], b[1..], n - 1);
      assert a[1..][n - 1..] == a[n..] && b[1..][n - 1..] == b[n..];
    }
  }

  lemma {:induction false} DifferenceDecides(a: string, b: string, k: nat)
    requires k <= |a| && k < |b| && a[..k] == b[..k] && (k == |a| || a[k] < b[k])
    ensures Before(a, b)
  {
    var i := FirstDifference(a, b);
    SamePrefix(a, b, i);
    SamePrefix(a, b, k);
  }

  /** The first place where two names differ decides, and a name comes before its extensions. */
  lemma {:induction false} BeforeIsByCodePoint(a: string, b: string)
    ensures Before(a, b) <==>
      (|a| < |b| && b[..|a|] == a) || exists i :: 0 <= i < |a| && i < |b| && a[..i] == b[..i] && a[i] < b[i]
  {
    var i := FirstDifference(a, b);
    assert a[..|a|] == a;
    if k :| 0 <= k < |a| && k < |b| && a[..k] == b[..k] && a[k] < b[k] { DifferenceDecides(a, b, k); }
    if |a| < |b| && b[..|a|] == a { DifferenceDecides(a, b, |a|); }
  }

  lemma {:induction false} BeforeTotal(a: string, b: string)
    ensures Before(a, b) || a == b || Before(b, a)
    ensures Before(a, b) ==> !Before(b, a) && a != b
  {
    if a != [] && b != [] {
      BeforeTotal(a[1..], b[1..]);
      assert a == [a[0]] + a[1..] && b == [b[0]] + b[1..];
    }
  }

  lemma {:induction false} BeforeTransitive(a: string, b: string, c: string)
    requires Before(a, b) && Before(b, c)
    ensures Before(a, c)
  {
    if a != [] {
      if a[0] == b[0] && b[0] == c[0] {
        BeforeTransitive(a[1..], b[1..], c[1..]);
      }
    }
  }

  lemma BeforeIsStrictWeak()
    ensures StrictWeak(Before)
  {
    forall x, y | Before(x, y) ensures !Before(y, x) {
      BeforeTotal(x, y);
    }
    forall x, y, z | Before(x, z) ensures Before(x, y) || Before(y, z) {
      BeforeTotal(x, y);
      if Before(y, x) {
        BeforeTransitive(y, x, z);
      }
    }
  }

  /** Distinct names come out strictly ascending. */
  lemma SortedNames(s: seq<string>)
    requires Distinct(s)
    ensures var r := Sorted(Before, s);
            Distinct(r) && (forall x :: x in r <==> x in s) &&
            forall i, j :: 0 <= i < j < |r| ==> Before(r[i], r[j])
  {
    BeforeIsStrictWeak();
    SortedIsOrdered(Before, s);
    var r := Sorted(Before, s);
    SameMembers(s, r);
    SamePermutationDistinct(s, r);
    forall i, j | 0 <= i < j < |r| ensures Before(r[i], r[j]) {
      BeforeTotal(r[i], r[j]);
    }
  }

  lemma SortedIds(s: seq<int>)
    requires Distinct(s)
    ensures var r := Sorted(IntBefore, s);
            Distinct(r) && (forall x :: x in r <==> x in s) &&
            forall i, j :: 0 <= i < j < |r| ==> r[i] < r[j]
  {
    SortedIsOrdered(IntBefore, s);
    var r := Sorted(IntBefore, s);
    SameMembers(s, r);
    SamePermutationDistinct(s, r);
    forall i, j | 0 <= i < j < |r| ensures r[i] < r[j] {
      assert !IntBefore(r[j], r[i]);
    }
  }
}
