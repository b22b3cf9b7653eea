/** Double sums over the pairs of a sequence, class by class. */
module Matrices {
  import opened Sums

  ghost predicate Classes<T(!new), L(!new)>(s: seq<T>, classes: seq<L>, of: T -> L) {
    (forall i, j :: 0 <= i < j < |classes| ==> classes[i] != classes[j]) && forall x :: x in s ==> of(x) in classes
  }

  ghost function RowOf<T>(w: (T, T) -> real, u: T): T -> real { (v: T) => w(u, v) }

  ghost function Into<T, L>(of: T -> L, w: (T, T) -> real, u: T, k: L): T -> real {
    (v: T) => if of(v) == k then w(u, v) else 0.0
  }

  ghost function FromInto<T(!new), L>(s: seq<T>, of: T -> L, w: (T, T) -> real, l: L, k: L): T -> real {
    (u: T) => if of(u) == l then Sigma(s, Into(of, w, u, k)) else 0.0
  }

  /** The sum of w over all pairs from class l to class k. */
  ghost function Between<T(!new), L>(s: seq<T>, of: T -> L, w: (T, T) -> real, l: L, k: L): real {
    Sigma(s, FromInto(s, of, w, l, k))
  }

  ghost function BetweenAt<T(!new), L>(s: seq<T>, of: T -> L, w: (T, T) -> real, l: L): L -> real {
    (k: L) => Between(s, of, w, l, k)
  }

  ghost function From<T(!new), L>(s: seq<T>, of: T -> L, w: (T, T) -> real, l: L): T -> real {
    (u: T) => if of(u) == l then Sigma(s, RowOf(w, u)) else 0.0
  }

  ghost function IntoAt<T(!new), L>(s: seq<T>, of: T -> L, w: (T, T) -> real, u: T): L -> real {
    (k: L) => Sigma(s, Into(of, w, u, k))
  }

  lemma RowByClass<T(!new), L(!new)>(s: seq<T>, classes: seq<L>, of: T -> L, w: (T, T) -> real, u: T)
    requires Classes(s, classes, of)
    ensures Sigma(classes, IntoAt(s, of, w, u)) == Sigma(s, RowOf(w, u))
  {
    var byClass := (c: L) => Sigma(s, (x: T) => if of(x) == c then RowOf(w, u)(x) else 0.0);
    SigmaByClass(s, classes, of, RowOf(w, u));
    forall k | k in classes ensures IntoAt(s, of, w, u)(k) == byClass(k) {
      SigmaSame(s, Into(of, w, u, k), (x: T) => if of(x) == k then RowOf(w, u)(x) else 0.0);
    }
    SigmaSame(classes, IntoAt(s, of, w, u), byClass);
    SigmaSame(classes, byClass, (c: L) => Sigma(s, (x: T) => if of(x) == c then RowOf(w, u)(x) else 0.0));
  }

  /** From one class to all classes is everything from that class. */
  lemma BetweenAll<T(!new), L(!new)>(s: seq<T>, classes: seq<L>, of: T -> L, w: (T, T) -> real, l: L)
    requires Classes(s, classes, of)
    ensures Sigma(classes, BetweenAt(s, of, w, l)) == Sigma(s, From(s, of, w, l))
  {
    var cell := (k: L, u: T) => FromInto(s, of, w, l, k)(u);
    SigmaSwap(classes, s, cell);
    var perClass, perItem := (k: L) => Sigma(s, (u: T) => cell(k, u)), (u: T) => Sigma(classes, (k: L) => cell(k, u));
    forall k | k in classes ensures perClass(k) == BetweenAt(s, of, w, l)(k) {
      SigmaSame(s, (u: T) => cell(k, u), FromInto(s, of, w, l, k));
    }
    SigmaSame(classes, perClass, BetweenAt(s, of, w, l));
    forall u | u in s ensures perItem(u) == From(s, of, w, l)(u) {
      var f := (k: L) => cell(k, u);
      if of(u) == l {
        SigmaSame(classes, f, IntoAt(s, of, w, u));
        RowByClass(s, classes, of, w, u);
      } else {
        SigmaZero(classes, f);
      }
      SigmaSame(classes, f, (k: L) => cell(k, u));
    }
    SigmaSame(s, perItem, From(s, of, w, l));
  }

  /** Exchanging the classes exchanges the arguments: symmetric weights have symmetric class sums. */
  lemma BetweenSymmetric<T(!new), L>(s: seq<T>, of: T -> L, w: (T, T) -> real, l: L, k: L)
    requires forall u, v :: w(u, v) == w(v, u)
    ensures Between(s, of, w, l, k) == Between(s, of, w, k, l)
  {
    var cell := (u: T, v: T) => if of(u) == l && of(v) == k then w(u, v) else 0.0;
    SigmaSwap(s, s, cell);
    forall u | u in s ensures FromInto(s, of, w, l, k)(u) == Sigma(s, (v: T) => cell(u, v)) {
      if of(u) == l {
        SigmaSame(s, Into(of, w, u, k), (v: T) => cell(u, v));
      } else {
        SigmaZero(s, (v: T) => cell(u, v));
      }
    }
    SigmaSame(s, FromInto(s, of, w, l, k), (u: T) => Sigma(s, (v: T) => cell(u, v)));
    forall v | v in s ensures FromInto(s, of, w, k, l)(v) == Sigma(s, (u: T) => cell(u, v)) {
      if of(v) == k {
        SigmaSame(s, Into(of, w, v, l), (u: T) => cell(u, v));
      } else {
        SigmaZero(s, (u: T) => cell(u, v));
      }
    }
    SigmaSame(s, FromInto(s, of, w, k, l), (v: T) => Sigma(s, (u: T) => cell(u, v)));
  }

  // ---- collapsing classes -----------------------------------------------------------------------

  ghost function SameRow<T(!new), C>(s: seq<T>, of: T -> C, w: (T, T) -> real): T -> real {
    (u: T) => Sigma(s, Into(of, w, u, of(u)))
  }

  /** The sum of w over all pairs within one class. */
  ghost function SameSum<T(!new), C>(s: seq<T>, of: T -> C, w: (T, T) -> real): real {
    Sigma(s, SameRow(s, of, w))
  }

  ghost function BetweenClasses<T(!new), L>(s: seq<T>, of: T -> L, w: (T, T) -> real): (L, L) -> real {
    (l: L, k: L) => Between(s, of, w, l, k)
  }

  ghost function OffDiagonal<L>(w: (L, L) -> real): (L, L) -> real {
    (l: L, k: L) => if l == k then 0.0 else w(l, k)
  }

  ghost function Coarser<T, L, C>(of: T -> L, b: L -> C): T -> C { (x: T) => b(of(x)) }

  ghost function InClass<T, L>(of: T -> L, f: T -> real, l: L): T -> real {
    (x: T) => if of(x) == l then f(x) else 0.0
  }

  ghost function ClassOf<T(!new), L>(s: seq<T>, of: T -> L, f: T -> real): L -> real {
    (l: L) => Sigma(s, InClass(of, f, l))
  }

  lemma ByClass<T(!new), L(!new)>(s: seq<T>, classes: seq<L>, of: T -> L, f: T -> real)
    requires Classes(s, classes, of)
    ensures Sigma(classes, ClassOf(s, of, f)) == Sigma(s, f)
  {
    SigmaByClass(s, classes, of, f);
    forall c | c in classes ensures ClassOf(s, of, f)(c) == Sigma(s, (x: T) => if of(x) == c then f(x) else 0.0) {
      SigmaSame(s, InClass(of, f, c), (x: T) => if of(x) == c then f(x) else 0.0);
    }
    SigmaSame(classes, ClassOf(s, of, f), (c: L) => Sigma(s, (x: T) => if of(x) == c then f(x) else 0.0));
  }

  /** A class of classes sums to the class of their members. */
  lemma ClassOfClasses<T(!new), L(!new), C>(s: seq<T>, classes: seq<L>, of: T -> L, b: L -> C, f: T -> real, x: C)
    requires Classes(s, classes, of)
    ensures Sigma(classes, InClass(b, ClassOf(s, of, f), x)) == Sigma(s, InClass(Coarser(of, b), f, x))
  {
    var h := InClass(Coarser(of, b), f, x);
    ByClass(s, classes, of, h);
    forall l | l in classes ensures InClass(b, ClassOf(s, of, f), x)(l) == ClassOf(s, of, h)(l) {
      if b(l) == x { SigmaSame(s, InClass(of, f, l), InClass(of, h, l)); } else { SigmaZero(s, InClass(of, h, l)); }
    }
    SigmaSame(classes, InClass(b, ClassOf(s, of, f), x), ClassOf(s, of, h));
  }

  /** Within coarser classes: what one class sends to the classes it is merged with. */
  lemma SameFrom<T(!new), L(!new), C>(s: seq<T>, classes: seq<L>, of: T -> L, w: (T, T) -> real, b: L -> C, l: L)
    requires Classes(s, classes, of)
    ensures SameRow(classes, b, BetweenClasses(s, of, w))(l) == ClassOf(s, of, SameRow(s, Coarser(of, b), w))(l)
  {
    var kept := (u: T, v: T) => if b(of(v)) == b(l) then w(u, v) else 0.0;
    BetweenAll(s, classes, of, kept, l);
    forall k | k in classes ensures Into(b, BetweenClasses(s, of, w), l, b(l))(k) == BetweenAt(s, of, kept, l)(k) {
      KeptBetween(s, of, w, kept, b, l, k);
    }
    SigmaSame(classes, Into(b, BetweenClasses(s, of, w), l, b(l)), BetweenAt(s, of, kept, l));
    forall u | u in s ensures From(s, of, kept, l)(u) == InClass(of, SameRow(s, Coarser(of, b), w), l)(u) {
      if of(u) == l { SigmaSame(s, RowOf(kept, u), Into(Coarser(of, b), w, u, b(l))); }
    }
    SigmaSame(s, From(s, of, kept, l), InClass(of, SameRow(s, Coarser(of, b), w), l));
  }

  lemma KeptBetween<T(!new), L(!new), C>(s: seq<T>, of: T -> L, w: (T, T) -> real, kept: (T, T) -> real, b: L -> C,
                                         l: L, k: L)
    requires forall u, v :: kept(u, v) == if b(of(v)) == b(l) then w(u, v) else 0.0
    ensures Between(s, of, kept, l, k) == if b(k) == b(l) then Between(s, of, w, l, k) else 0.0
  {
    forall u | u in s
      ensures FromInto(s, of, kept, l, k)(u) == if b(k) == b(l) then FromInto(s, of, w, l, k)(u) else 0.0
    {
      if b(k) == b(l) {
        SigmaSame(s, Into(of, kept, u, k), Into(of, w, u, k));
      } else {
        SigmaZero(s, Into(of, kept, u, k));
      }
    }
    if b(k) == b(l) {
      SigmaSame(s, FromInto(s, of, kept, l, k), FromInto(s, of, w, l, k));
    } else {
      SigmaZero(s, FromInto(s, of, kept, l, k));
    }
  }

  /** Pairs within coarser classes may be summed class by class. */
  lemma SameSumCollapses<T(!new), L(!new), C>(s: seq<T>, classes: seq<L>, of: T -> L, w: (T, T) -> real, b: L -> C)
    requires Classes(s, classes, of)
    ensures SameSum(classes, b, BetweenClasses(s, of, w)) == SameSum(s, Coarser(of, b), w)
  {
    forall l | l in classes
      ensures SameRow(classes, b, BetweenClasses(s, of, w))(l) == ClassOf(s, of, SameRow(s, Coarser(of, b), w))(l)
    {
      SameFrom(s, classes, of, w, b, l);
    }
    SigmaSame(classes, SameRow(classes, b, BetweenClasses(s, of, w)), ClassOf(s, of, SameRow(s, Coarser(of, b), w)));
    ByClass(s, classes, of, SameRow(s, Coarser(of, b), w));
  }

  ghost function Diagonal<L>(w: (L, L) -> real): L -> real { (l: L) => w(l, l) }

  lemma RowDiagonal<L(!new)>(classes: seq<L>, f: L -> real, off: L -> real, l: L)
    requires (forall i, j :: 0 <= i < j < |classes| ==> classes[i] != classes[j]) && l in classes
    requires forall k :: off(k) == if k == l then 0.0 else f(k)
    ensures Sigma(classes, f) == Sigma(classes, off) + f(l)
  {
    var only := (k: L) => if k == l then f(l) else 0.0;
    SigmaAdds(classes, off, only, f);
    SigmaPick(classes, only, l);
  }

  /** The pairs of a class with itself, taken apart. */
  lemma DiagonalAdds<L(!new), C>(classes: seq<L>, b: L -> C, w: (L, L) -> real)
    requires forall i, j :: 0 <= i < j < |classes| ==> classes[i] != classes[j]
    ensures SameSum(classes, b, w) == SameSum(classes, b, OffDiagonal(w)) + Sigma(classes, Diagonal(w))
  {
    forall l | l in classes
      ensures SameRow(classes, b, w)(l) == SameRow(classes, b, OffDiagonal(w))(l) + Diagonal(w)(l)
    {
      RowDiagonal(classes, Into(b, w, l, b(l)), Into(b, OffDiagonal(w), l, b(l)), l);
    }
    SigmaAdds(classes, SameRow(classes, b, OffDiagonal(w)), Diagonal(w), SameRow(classes, b, w));
  }

  // ---- weights with loops --------------------------------------------------------------------------

  /** Twice the loop, and every arc. */
  ghost function DegreeIn<T(!new)>(s: seq<T>, w: (T, T) -> real, loops: T -> real): T -> real {
    (u: T) => Sigma(s, RowOf(w, u)) + 2.0 * loops(u)
  }

  /** What collapsing the classes makes of loops: theirs, and the pairs inside. */
  ghost function LoopsOfClasses<T(!new), L>(s: seq<T>, of: T -> L, w: (T, T) -> real, loops: T -> real): L -> real {
    (l: L) => Sigma(s, InClass(of, loops, l)) + Between(s, of, w, l, l) / 2.0
  }

  /** The weight within classes: loops, and half of every pair. */
  ghost function Within<T(!new), C>(s: seq<T>, of: T -> C, w: (T, T) -> real, loops: T -> real): real {
    Sigma(s, loops) + SameSum(s, of, w) / 2.0
  }

  /** A collapsed class has the degrees of its members. */
  lemma DegreesCollapse<T(!new), L(!new)>(s: seq<T>, classes: seq<L>, of: T -> L, w: (T, T) -> real,
                                          loops: T -> real, l: L)
    requires Classes(s, classes, of) && l in classes
    ensures DegreeIn(classes, OffDiagonal(BetweenClasses(s, of, w)), LoopsOfClasses(s, of, w, loops))(l)
         == ClassOf(s, of, DegreeIn(s, w, loops))(l)
  {
    RowDiagonal(classes, BetweenAt(s, of, w, l), RowOf(OffDiagonal(BetweenClasses(s, of, w)), l), l);
    BetweenAll(s, classes, of, w, l);
    var twice := (u: T) => if of(u) == l then 2.0 * loops(u) else 0.0;
    SigmaHalves(s, twice, InClass(of, loops, l));
    SigmaAdds(s, From(s, of, w, l), twice, InClass(of, DegreeIn(s, w, loops), l));
  }

  /** No partition of the collapsed classes has more or less weight within than on the members. */
  lemma WithinCollapses<T(!new), L(!new), C>(s: seq<T>, classes: seq<L>, of: T -> L, w: (T, T) -> real,
                                             loops: T -> real, b: L -> C)
    requires Classes(s, classes, of)
    ensures Within(classes, b, OffDiagonal(BetweenClasses(s, of, w)), LoopsOfClasses(s, of, w, loops))
         == Within(s, Coarser(of, b), w, loops)
  {
    var full := BetweenClasses(s, of, w);
    SameSumCollapses(s, classes, of, w, b);
    DiagonalAdds(classes, b, full);
    ByClass(s, classes, of, loops);
    var half := (l: L) => full(l, l) / 2.0;
    SigmaHalves(classes, Diagonal(full), half);
    SigmaAdds(classes, ClassOf(s, of, loops), half, LoopsOfClasses(s, of, w, loops));
  }

  // ---- only the values on the sequence matter ---------------------------------------------------------

  lemma WithinSame<T(!new), C>(s: seq<T>, of: T -> C, of': T -> C, w: (T, T) -> real, w': (T, T) -> real,
                               loops: T -> real, loops': T -> real)
    requires forall u :: u in s ==> of(u) == of'(u) && loops(u) == loops'(u)
    requires forall u, v :: u in s && v in s ==> w(u, v) == w'(u, v)
    ensures Within(s, of, w, loops) == Within(s, of', w', loops')
  {
    SigmaSame(s, loops, loops');
    forall u | u in s ensures SameRow(s, of, w)(u) == SameRow(s, of', w')(u) {
      SigmaSame(s, Into(of, w, u, of(u)), Into(of', w', u, of'(u)));
    }
    SigmaSame(s, SameRow(s, of, w), SameRow(s, of', w'));
  }

  lemma DegreeSame<T(!new)>(s: seq<T>, w: (T, T) -> real, w': (T, T) -> real, loops: T -> real, loops': T -> real, u: T)
    requires loops(u) == loops'(u) && forall v :: v in s ==> w(u, v) == w'(u, v)
    ensures DegreeIn(s, w, loops)(u) == DegreeIn(s, w', loops')(u)
  {
    SigmaSame(s, RowOf(w, u), RowOf(w', u));
  }

  lemma ClassSame<T(!new), C>(s: seq<T>, of: T -> C, of': T -> C, f: T -> real, x: C)
    requires forall u :: u in s ==> of(u) == of'(u)
    ensures Sigma(s, InClass(of, f, x)) == Sigma(s, InClass(of', f, x))
  {
    SigmaSame(s, InClass(of, f, x), InClass(of', f, x));
  }
}
