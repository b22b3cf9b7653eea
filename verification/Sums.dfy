/** Sums of the values of a finite map: what Python's `sum(d.values())` computes, in any order. */
module Sums {
  import opened Ordering

  ghost function Total<K(!new)>(m: map<K, real>): real {
    if m == map[] then 0.0
    else
      var k :| k in m;
      m[k] + Total(m - {k})
  }

  /** Any key may be taken out first. */
  lemma {:induction false} TotalRemove<K(!new)>(m: map<K, real>, k: K)
    requires k in m
    ensures Total(m) == m[k] + Total(m - {k})
    decreases |m|
  {
    var x :| x in m && Total(m) == m[x] + Total(m - {x});
    if x != k {
      TotalRemove(m - {x}, k);
      TotalRemove(m - {k}, x);
      assert m - {x} - {k} == m - {k} - {x};
    }
  }

  lemma TotalUpdate<K(!new)>(m: map<K, real>, k: K, v: real)
    ensures Total(m[k := v]) == Total(m) + v - (if k in m then m[k] else 0.0)
  {
    TotalRemove(m[k := v], k);
    assert m[k := v] - {k} == m - {k};
    if k in m {
      TotalRemove(m, k);
    } else {
      assert m - {k} == m;
    }
  }

  lemma {:induction false} TotalNonNegative<K(!new)>(m: map<K, real>)
    requires forall k :: k in m ==> m[k] >= 0.0
    ensures Total(m) >= 0.0
    decreases |m|
  {
    if m != map[] {
      var k :| k in m;
      TotalRemove(m, k);
      TotalNonNegative(m - {k});
    }
  }

  ghost predicate Combines(h: real, f: real, s: real, p: real, q: real) {
    h == p * f - q * s
  }

  lemma CombineTwo(h1: real, h2: real, f1: real, f2: real, s1: real, s2: real, p: real, q: real)
    requires Combines(h1, f1, s1, p, q) && Combines(h2, f2, s2, p, q)
    ensures Combines(h1 + h2, f1 + f2, s1 + s2, p, q)
  {
    assert p * (f1 + f2) == p * f1 + p * f2;
    assert q * (s1 + s2) == q * s1 + q * s2;
  }

  /** A sum of combinations p*f - q*s is the combination of the sums. */
  lemma {:induction false} TotalLinear<K(!new)>(h: map<K, real>, f: map<K, real>, s: map<K, real>, p: real, q: real)
    requires h.Keys == f.Keys == s.Keys
    requires forall k :: k in h ==> Combines(h[k], f[k], s[k], p, q)
    ensures Combines(Total(h), Total(f), Total(s), p, q)
    decreases |h|
  {
    if h == map[] {
      assert f.Keys == {} && s.Keys == {};
      assert f == map[] && s == map[];
    } else {
      var k :| k in h;
      var h1, f1, s1 := h - {k}, f - {k}, s - {k};
      assert h1.Keys == f1.Keys == s1.Keys == h.Keys - {k};
      TotalLinear(h1, f1, s1, p, q);
      TotalRemove(h, k);
      TotalRemove(f, k);
      TotalRemove(s, k);
      CombineTwo(h[k], Total(h1), f[k], Total(f1), s[k], Total(s1), p, q);
    }
  }

  /** The part of a map still to be summed. */
  ghost function Restrict<K, V>(m: map<K, V>, keys: set<K>): map<K, V> {
    map k | k in m && k in keys :: m[k]
  }

  lemma RestrictAll<K, V>(m: map<K, V>, keys: set<K>)
    requires m.Keys <= keys
    ensures Restrict(m, keys) == m
  {
  }

  lemma RestrictTotal<K(!new)>(m: map<K, real>, keys: set<K>, k: K)
    requires k in keys
    ensures Total(Restrict(m, keys)) == (if k in m then m[k] else 0.0) + Total(Restrict(m, keys - {k}))
  {
    var part := Restrict(m, keys);
    assert part - {k} == Restrict(m, keys - {k});
    if k in m {
      TotalRemove(part, k);
    } else {
      assert part - {k} == part;
    }
  }

  /** `sum(d.values())`. */
  method SumValues<K(==,!new)>(m: map<K, real>) returns (t: real)
    ensures t == Total(m)
  {
    t := 0.0;
    var rest := m;
    while rest != map[]
      invariant t + Total(rest) == Total(m)
      decreases |rest|
    {
      var k :| k in rest;
      TotalRemove(rest, k);
      t := t + rest[k];
      rest := rest - {k};
    }
  }

  // ---- sums over a sequence ----------------------------------------------------------------

  ghost function Sigma<T(!new)>(s: seq<T>, f: T -> real): real {
    if s == [] then 0.0 else Sigma(s[..|s| - 1], f) + f(s[|s| - 1])
  }

  lemma {:induction false} SigmaSame<T(!new)>(s: seq<T>, f: T -> real, h: T -> real)
    requires forall x :: x in s ==> f(x) == h(x)
    ensures Sigma(s, f) == Sigma(s, h)
  {
    if s != [] {
      assert s == s[..|s| - 1] + [s[|s| - 1]];
      SigmaSame(s[..|s| - 1], f, h);
    }
  }

  lemma {:induction false} SigmaJoins<T(!new)>(s: seq<T>, t: seq<T>, f: T -> real)
    ensures Sigma(s + t, f) == Sigma(s, f) + Sigma(t, f)
  {
    if t == [] {
      assert s + t == s;
    } else {
      assert (s + t)[..|s + t| - 1] == s + t[..|t| - 1];
      SigmaJoins(s, t[..|t| - 1], f);
    }
  }

  /** The order of the terms does not matter. */
  lemma {:induction false} SigmaPermuted<T(!new)>(s: seq<T>, t: seq<T>, f: T -> real)
    requires multiset(s) == multiset(t)
    ensures Sigma(s, f) == Sigma(t, f)
    decreases |s|
  {
    assert |multiset(s)| == |s| && |multiset(t)| == |t|;
    if s != [] {
      var x := s[|s| - 1];
      assert x in multiset(t);
      var i :| 0 <= i < |t| && t[i] == x;
      Removed(s, t, i);
      SigmaPermuted(s[..|s| - 1], t[..i] + t[i + 1..], f);
      assert t == t[..i] + [x] + t[i + 1..];
      SigmaJoins(t[..i], t[i + 1..], f);
      SigmaJoins(t[..i] + [x], t[i + 1..], f);
      SigmaJoins(t[..i], [x], f);
    }
  }

  lemma {:induction false} SigmaAdds<T(!new)>(s: seq<T>, f: T -> real, h: T -> real, sum: T -> real)
    requires forall x :: x in s ==> sum(x) == f(x) + h(x)
    ensures Sigma(s, sum) == Sigma(s, f) + Sigma(s, h)
  {
    if s != [] {
      assert s == s[..|s| - 1] + [s[|s| - 1]];
      SigmaAdds(s[..|s| - 1], f, h, sum);
    }
  }

  lemma {:induction false} SigmaHalves<T(!new)>(s: seq<T>, f: T -> real, h: T -> real)
    requires forall x :: x in s ==> h(x) == f(x) / 2.0
    ensures Sigma(s, h) == Sigma(s, f) / 2.0
  {
    if s != [] {
      assert s == s[..|s| - 1] + [s[|s| - 1]];
      SigmaHalves(s[..|s| - 1], f, h);
    }
  }

  lemma {:induction false} SigmaZero<T(!new)>(s: seq<T>, f: T -> real)
    requires forall x :: x in s ==> f(x) == 0.0
    ensures Sigma(s, f) == 0.0
  {
    if s != [] {
      assert s == s[..|s| - 1] + [s[|s| - 1]];
      SigmaZero(s[..|s| - 1], f);
    }
  }

  /** Of a sum with one term that is not zero. */
  lemma {:induction false} SigmaPick<T(!new)>(s: seq<T>, f: T -> real, x: T)
    requires (forall i, j :: 0 <= i < j < |s| ==> s[i] != s[j]) && x in s
    requires forall y :: y in s && y != x ==> f(y) == 0.0
    ensures Sigma(s, f) == f(x)
  {
    var front, last := s[..|s| - 1], s[|s| - 1];
    assert s == front + [last];
    if x == last {
      SigmaZero(front, f);
    } else {
      SigmaPick(front, f, x);
    }
  }

  /** Sums may be exchanged. */
  lemma {:induction false} SigmaSwap<S(!new), T(!new)>(s: seq<S>, t: seq<T>, f: (S, T) -> real)
    ensures Sigma(s, (x: S) => Sigma(t, (y: T) => f(x, y))) == Sigma(t, (y: T) => Sigma(s, (x: S) => f(x, y)))
  {
    if s == [] {
      SigmaZero(t, (y: T) => Sigma(s, (x: S) => f(x, y)));
    } else {
      var front, last := s[..|s| - 1], s[|s| - 1];
      SigmaSwap(front, t, f);
      SigmaAdds(t, (y: T) => Sigma(front, (x: S) => f(x, y)), (y: T) => f(last, y),
                (y: T) => Sigma(s, (x: S) => f(x, y)));
    }
  }

  /** Summing class by class is summing. */
  lemma SigmaByClass<T(!new), L(!new)>(s: seq<T>, classes: seq<L>, of: T -> L, f: T -> real)
    requires forall i, j :: 0 <= i < j < |classes| ==> classes[i] != classes[j]
    requires forall x :: x in s ==> of(x) in classes
    ensures Sigma(classes, (c: L) => Sigma(s, (x: T) => if of(x) == c then f(x) else 0.0)) == Sigma(s, f)
  {
    var cell := (x: T, c: L) => if of(x) == c then f(x) else 0.0;
    SigmaSwap(s, classes, cell);
    var byNode := (x: T) => Sigma(classes, (c: L) => cell(x, c));
    forall x | x in s ensures byNode(x) == f(x) {
      SigmaPick(classes, (c: L) => cell(x, c), of(x));
    }
    SigmaSame(s, byNode, f);
    var byClass := (c: L) => Sigma(s, (x: T) => cell(x, c));
    forall c | c in classes ensures byClass(c) == Sigma(s, (x: T) => if of(x) == c then f(x) else 0.0) {
      SigmaSame(s, (x: T) => cell(x, c), (x: T) => if of(x) == c then f(x) else 0.0);
    }
    SigmaSame(classes, byClass, (c: L) => Sigma(s, (x: T) => if of(x) == c then f(x) else 0.0));
  }
}
