/** Semantic edge weighting: `cosine` and `_augment_with_embeddings`, and why the weighting
    cannot change what the refinement finds. */
module Semantic {
  import opened Refinement

  type Vector = seq<real>
  datatype Result<T> = Ok(value: T) | Err(reason: string)

  function Dot(a: Vector, b: Vector): real
    requires |a| == |b|
  {
    if a == [] then 0.0 else Dot(a[..|a| - 1], b[..|b| - 1]) + a[|a| - 1] * b[|b| - 1]
  }

  /** From the other end: the sum of the products, coordinate by coordinate. */
  lemma {:induction false} DotFromFront(a: Vector, b: Vector)
    requires |a| == |b| && a != []
    ensures Dot(a, b) == a[0] * b[0] + Dot(a[1..], b[1..])
  {
    var n := |a| - 1;
    if n == 0 {
      assert Dot(a[..0], b[..0]) == 0.0 && Dot(a[1..], b[1..]) == 0.0;
    } else {
      DotFromFront(a[..n], b[..n]);
      assert a[..n][1..] == a[1..][..n - 1] && b[..n][1..] == b[1..][..n - 1];
      assert a[1..][n - 1] == a[n] && b[1..][n - 1] == b[n];
    }
  }

  /** The norm divisor of `cosine`: the root r of the squared length, or 1.0 when r is zero. */
  function Divisor(r: real): real {
    if r == 0.0 then 1.0 else r
  }

  ghost predicate IsRoot(r: real, s: real) { r >= 0.0 && r * r == s }

  /** n over both roots, a root of zero counting as one. */
  ghost predicate IsQuotient(q: real, n: real, ra: real, rb: real) {
    q * ((if ra == 0.0 then 1.0 else ra) * (if rb == 0.0 then 1.0 else rb)) == n
  }

  /** `cosine`, given the two square roots; vectors of different length raise an error. */
  function Cosine(a: Vector, ra: real, b: Vector, rb: real): (r: Result<real>)
    requires ra >= 0.0 && rb >= 0.0
    ensures r.Err? <==> |a| != |b|
    ensures r.Err? ==> r.reason == "vector dimensions must match"
    ensures r.Ok? ==> IsQuotient(r.value, Dot(a, b), ra, rb)
  {
    if |a| != |b| then Err("vector dimensions must match")
    else
      ProductPositive(Divisor(ra), Divisor(rb));
      Ok(Dot(a, b) / (Divisor(ra) * Divisor(rb)))
  }

  lemma ProductPositive(x: real, y: real)
    requires x > 0.0 && y > 0.0
    ensures x * y > 0.0
  {
  }

  lemma SquareNonNegative(x: real)
    ensures x * x >= 0.0
  {
  }

  /** One coordinate more in Cauchy-Schwarz: if c*c <= p*q then 2cxy <= p*y*y + q*x*x. */
  lemma CrossTerm(p: real, q: real, c: real, x: real, y: real)
    requires p >= 0.0 && q >= 0.0 && c * c <= p * q
    ensures 2.0 * c * x * y <= p * (y * y) + q * (x * x)
  {
    if p == 0.0 {
      SquareZero(c);
      SquareNonNegative(x);
      assert q * (x * x) >= 0.0;
    } else {
      var d := p * y - c * x;
      var gap := p * (y * y) + q * (x * x) - 2.0 * c * x * y;
      SquareNonNegative(d);
      SquareNonNegative(x);
      assert (p * q - c * c) * (x * x) >= 0.0;
      assert p * gap == d * d + (p * q - c * c) * (x * x) by { Expand(p, q, c, x, y); }
      PositiveFactor(p, gap);
    }
  }

  lemma SquareZero(c: real)
    requires c * c <= 0.0
    ensures c == 0.0
  {
    var d := -c;
    assert d * d == c * c;
    RootOrder(c, 0.0);
    RootOrder(d, 0.0);
  }

  lemma RootOrder(n: real, m: real)
    requires m >= 0.0 && n * n <= m * m
    ensures n <= m
  {
    if n > m {
      ProductPositive(n - m, n + m);
    }
  }

  lemma ScaleOrder(x: real, y: real, d: real)
    requires d > 0.0 && x * d <= y * d
    ensures x <= y
  {
    if x > y {
      ProductPositive(x - y, d);
    }
  }

  lemma Expand(p: real, q: real, c: real, x: real, y: real)
    ensures p * (p * (y * y) + q * (x * x) - 2.0 * c * x * y)
         == (p * y - c * x) * (p * y - c * x) + (p * q - c * c) * (x * x)
  {
  }

  lemma PositiveFactor(p: real, g: real)
    requires p > 0.0 && p * g >= 0.0
    ensures g >= 0.0
  {
  }

  lemma {:induction false} CauchySchwarz(a: Vector, b: Vector)
    requires |a| == |b|
    ensures Dot(a, a) >= 0.0 && Dot(b, b) >= 0.0
    ensures Dot(a, b) * Dot(a, b) <= Dot(a, a) * Dot(b, b)
  {
    if a != [] {
      var n := |a| - 1;
      CauchySchwarz(a[..n], b[..n]);
      var p, q, c, x, y := Dot(a[..n], a[..n]), Dot(b[..n], b[..n]), Dot(a[..n], b[..n]), a[n], b[n];
      CrossTerm(p, q, c, x, y);
      SquareNonNegative(x);
      SquareNonNegative(y);
      SumOfProducts(p, q, c, x, y);
    }
  }

  lemma SumOfProducts(p: real, q: real, c: real, x: real, y: real)
    requires c * c <= p * q && 2.0 * c * x * y <= p * (y * y) + q * (x * x)
    ensures (c + x * y) * (c + x * y) <= (p + x * x) * (q + y * y)
  {
    assert (c + x * y) * (c + x * y) == c * c + 2.0 * c * x * y + (x * x) * (y * y);
    assert (p + x * x) * (q + y * y) == p * q + p * (y * y) + q * (x * x) + (x * x) * (y * y);
  }

  lemma RootBound(n: real, ra: real, rb: real)
    requires ra >= 0.0 && rb >= 0.0 && n * n <= (ra * ra) * (rb * rb)
    ensures -(ra * rb) <= n <= ra * rb
  {
    var m := ra * rb;
    assert m >= 0.0 && m * m == (ra * ra) * (rb * rb);
    RootOrder(n, m);
    RootOrder(-n, m);
  }

  lemma QuotientBound(n: real, d: real)
    requires d > 0.0 && -d <= n <= d
    ensures -1.0 <= n / d <= 1.0
  {
    var q := n / d;
    assert q * d == n;
    ScaleOrder(q, 1.0, d);
    ScaleOrder(-1.0, q, d);
  }

  /** The similarity of any two vectors of one length lies between -1 and 1. */
  lemma CosineInRange(a: Vector, ra: real, b: Vector, rb: real)
    requires |a| == |b| && IsRoot(ra, Dot(a, a)) && IsRoot(rb, Dot(b, b))
    ensures Cosine(a, ra, b, rb).Ok? && -1.0 <= Cosine(a, ra, b, rb).value <= 1.0
  {
    hide IsQuotient;
    CauchySchwarz(a, b);
    RootBound(Dot(a, b), ra, rb);
    ProductPositive(Divisor(ra), Divisor(rb));
    DivisorBound(Dot(a, b), ra, rb);
    QuotientBound(Dot(a, b), Divisor(ra) * Divisor(rb));
  }

  /** Replacing a zero norm by one keeps the bound. */
  lemma DivisorBound(n: real, ra: real, rb: real)
    requires ra >= 0.0 && rb >= 0.0 && -(ra * rb) <= n <= ra * rb
    ensures -(Divisor(ra) * Divisor(rb)) <= n <= Divisor(ra) * Divisor(rb)
  {
    if ra == 0.0 || rb == 0.0 {
      assert ra * rb == 0.0;
      ProductPositive(Divisor(ra), Divisor(rb));
    }
  }

  /** Each embedded node has its vector and the root of its squared length. */
  type Embedding = map<Node, (Vector, real)>

  ghost predicate ValidEmbedding(emb: Embedding) {
    forall n :: n in emb ==> IsRoot(emb[n].1, Dot(emb[n].0, emb[n].0))
  }

  /** The factor of one edge: 1, plus the similarity when both ends are embedded and it is positive. */
  function Similarity(e: Edge, emb: Embedding): (r: Result<real>)
    requires forall n :: n in emb ==> emb[n].1 >= 0.0
    ensures e.u !in emb || e.v !in emb ==> r == Ok(0.0)
    ensures e.u in emb && e.v in emb ==>
      var c := Cosine(emb[e.u].0, emb[e.u].1, emb[e.v].0, emb[e.v].1);
      (r.Err? <==> c.Err?) && (r.Err? ==> r.reason == c.reason) &&
      (r.Ok? ==> r.value >= 0.0 && r.value >= c.value && (r.value == 0.0 || r.value == c.value))
  {
    if e.u in emb && e.v in emb then
      match Cosine(emb[e.u].0, emb[e.u].1, emb[e.v].0, emb[e.v].1)
      case Ok(c) => Ok(if c > 0.0 then c else 0.0)
      case Err(r) => Err(r)
    else Ok(0.0)
  }

  /** Edge for edge, the same ends and a weight between once and twice the old one (for
      non-negative weights); a weight is positive after exactly when it was before. */
  ghost predicate Reweighted(edges: seq<Edge>, r: seq<Edge>) {
    |r| == |edges| &&
    forall i :: 0 <= i < |edges| ==>
      r[i].u == edges[i].u && r[i].v == edges[i].v &&
      (edges[i].w >= 0.0 ==> edges[i].w <= r[i].w <= 2.0 * edges[i].w) &&
      (edges[i].w < 0.0 ==> 2.0 * edges[i].w <= r[i].w <= edges[i].w)
  }

  /** `(u, v, w * (1.0 + sim))`. */
  ghost predicate Scaled(e: Edge, r: Edge, emb: Embedding)
    requires ValidEmbedding(emb)
  {
    Similarity(e, emb).Ok? && r == Edge(e.u, e.v, e.w * (1.0 + Similarity(e, emb).value))
  }

  /** `_augment_with_embeddings`: it fails exactly when an edge joins two embedded nodes whose
      vectors differ in length, and otherwise scales every edge. */
  method Augment(edges: seq<Edge>, emb: Embedding) returns (r: Result<seq<Edge>>)
    requires ValidEmbedding(emb)
    ensures r.Err? <==> exists i :: 0 <= i < |edges| && Mismatched(edges[i], emb)
    ensures r.Err? ==> r.reason == "vector dimensions must match"
    ensures r.Ok? ==> |r.value| == |edges| && Reweighted(edges, r.value)
    ensures r.Ok? ==> forall i :: 0 <= i < |edges| ==> Scaled(edges[i], r.value[i], emb)
  {
    var augmented: seq<Edge> := [];
    for k := 0 to |edges|
      invariant |augmented| == k
      invariant forall i :: 0 <= i < k ==> !Mismatched(edges[i], emb) && Scaled(edges[i], augmented[i], emb)
    {
      var e := edges[k];
      var sim := Similarity(e, emb);
      SimilarityInRange(e, emb);
      if sim.Err? {
        assert Mismatched(edges[k], emb);
        return Err(sim.reason);
      }
      augmented := augmented + [Edge(e.u, e.v, e.w * (1.0 + sim.value))];
    }
    ScaledIsReweighted(edges, augmented, emb);
    return Ok(augmented);
  }

  lemma ScaledIsReweighted(edges: seq<Edge>, r: seq<Edge>, emb: Embedding)
    requires ValidEmbedding(emb) && |r| == |edges|
    requires forall i :: 0 <= i < |edges| ==> Scaled(edges[i], r[i], emb)
    ensures Reweighted(edges, r)
  {
    forall i | 0 <= i < |edges|
      ensures edges[i].w >= 0.0 ==> edges[i].w <= r[i].w <= 2.0 * edges[i].w
      ensures edges[i].w < 0.0 ==> 2.0 * edges[i].w <= r[i].w <= edges[i].w
    {
      assert Scaled(edges[i], r[i], emb);
      SimilarityInRange(edges[i], emb);
      var w, sim := edges[i].w, Similarity(edges[i], emb).value;
      ScaleBounds(w, sim);
      assert r[i].w == w * (1.0 + sim);
    }
  }

  ghost predicate Mismatched(e: Edge, emb: Embedding) {
    e.u in emb && e.v in emb && |emb[e.u].0| != |emb[e.v].0|
  }

  lemma SimilarityInRange(e: Edge, emb: Embedding)
    requires ValidEmbedding(emb)
    ensures Similarity(e, emb).Err? <==> Mismatched(e, emb)
    ensures Similarity(e, emb).Ok? ==> 0.0 <= Similarity(e, emb).value <= 1.0
  {
    if e.u in emb && e.v in emb && |emb[e.u].0| == |emb[e.v].0| {
      CosineInRange(emb[e.u].0, emb[e.u].1, emb[e.v].0, emb[e.v].1);
    }
  }

  lemma ScaleBounds(w: real, s: real)
    requires 0.0 <= s <= 1.0
    ensures w >= 0.0 ==> w <= w * (1.0 + s) <= 2.0 * w
    ensures w < 0.0 ==> 2.0 * w <= w * (1.0 + s) <= w
  {
    if w >= 0.0 {
      ScaleUp(w, s);
    } else {
      ScaleUp(-w, s);
      assert (-w) * (1.0 + s) == -(w * (1.0 + s));
    }
  }

  lemma ScaleUp(w: real, s: real)
    requires w >= 0.0 && 0.0 <= s <= 1.0
    ensures w <= w * (1.0 + s) <= 2.0 * w
  {
    NonNegativeProduct(w, s);
    NonNegativeProduct(w, 1.0 - s);
    assert w * (1.0 + s) == w + w * s;
    assert w * (1.0 - s) == w - w * s;
  }

  lemma NonNegativeProduct(x: real, y: real)
    requires x >= 0.0 && y >= 0.0
    ensures x * y >= 0.0
  {
  }

  /** Refining on the reweighted edges is refining on the structural edges, so the classes
      found on either are connected in the structural graph. */
  lemma ReweightingCannotChangeRefinement(a: Assignment, edges: seq<Edge>, detection: seq<Edge>)
    requires Reweighted(edges, detection)
    ensures LinksOf(detection) == LinksOf(edges)
    ensures Refined(a, LinksOf(detection)) == Refined(a, LinksOf(edges))
    ensures WellConnected(Refined(a, LinksOf(detection)), LinksOf(edges))
  {
    forall i | 0 <= i < |edges|
      ensures (edges[i].w > 0.0 <==> detection[i].w > 0.0) && Ends(edges[i]) == Ends(detection[i])
    {
    }
    assert Covered(edges, detection) && Covered(detection, edges);
    SameLinks(edges, detection);
    RefinedOfSameLinks(a, LinksOf(edges), LinksOf(detection));
    RefinedIsWellConnected(a, LinksOf(edges));
  }
}
