/** Scoring extracted symbols against expected ones, as multisets of (kind, name) pairs. */
module Scoring {

  datatype Symbol = Symbol(kind: string, name: string)

  /** What parsing one file gives: the Counter of its symbols, module symbols left out. */
  datatype Parsed = Unreadable | Symbols(counter: multiset<Symbol>)
  datatype File = File(parsed: Parsed, expected: multiset<Symbol>)
  datatype Counts = Counts(expected: nat, extracted: nat, correct: nat)
  datatype Score =
    | ParseError(file: nat)
    | Measured(total: Counts, perFile: seq<Counts>, missed: multiset<Symbol>, spurious: multiset<Symbol>)

  function GotOf(f: File): (got: multiset<Symbol>)
    ensures f.parsed.Symbols? ==> got == f.parsed.counter
    ensures f.parsed.Unreadable? ==> got == multiset{}
  {
    if f.parsed.Symbols? then f.parsed.counter else multiset{}
  }

  /** The first n multisets together. */
  ghost function Pool(parts: seq<multiset<Symbol>>, n: nat): multiset<Symbol>
    requires n <= |parts|
  {
    if n == 0 then multiset{} else Pool(parts, n - 1) + parts[n - 1]
  }

  ghost function Got(files: seq<File>): (r: seq<multiset<Symbol>>)
    ensures |r| == |files| && forall i :: 0 <= i < |files| ==> r[i] == GotOf(files[i])
  {
    seq(|files|, i requires 0 <= i < |files| => GotOf(files[i]))
  }

  ghost function Expected(files: seq<File>): (r: seq<multiset<Symbol>>)
    ensures |r| == |files| && forall i :: 0 <= i < |files| ==> r[i] == files[i].expected
  {
    seq(|files|, i requires 0 <= i < |files| => files[i].expected)
  }

  function CountsOf(got: multiset<Symbol>, expected: multiset<Symbol>): Counts {
    Counts(|expected|, |got|, |got * expected|)
  }

  // ---- laws of one comparison ----------------------------------------------------------------

  /** What is expected is found or missed; what is extracted is right or spurious. */
  lemma MissedAndSpurious(got: multiset<Symbol>, expected: multiset<Symbol>)
    ensures |expected - got| + |got * expected| == |expected|
    ensures |got - expected| + |got * expected| == |got|
  {
    assert (expected - got) + (got * expected) == expected;
    assert (got - expected) + (got * expected) == got;
  }

  /** Full precision is having extracted nothing else, full recall having missed nothing, and
      both together having extracted exactly what was expected. */
  lemma PerfectScores(got: multiset<Symbol>, expected: multiset<Symbol>)
    ensures |got * expected| == |got| <==> got <= expected
    ensures |got * expected| == |expected| <==> expected <= got
    ensures |got * expected| == |got| == |expected| <==> got == expected
  {
    MissedAndSpurious(got, expected);
    if |got * expected| == |got| { NothingLeft(got, expected); }
    if |got * expected| == |expected| { NothingLeft(expected, got); }
    if got <= expected { assert got * expected == got; }
    if expected <= got { assert got * expected == expected; }
  }

  lemma NothingLeft(x: multiset<Symbol>, y: multiset<Symbol>)
    requires |x - y| == 0
    ensures x <= y
  {
    assert x - y == multiset{};
    forall e ensures x[e] <= y[e] {
      assert (x - y)[e] == 0;
    }
  }

  lemma SizeGrows<T>(x: multiset<T>, y: multiset<T>)
    requires x <= y
    ensures |x| <= |y|
  {
    assert y == x + (y - x);
  }

  // ---- per file and pooled ---------------------------------------------------------------------

  /** The matches found file by file. */
  ghost function CorrectSum(got: seq<multiset<Symbol>>, expected: seq<multiset<Symbol>>, n: nat): nat
    requires n <= |got| == |expected|
  {
    if n == 0 then 0 else CorrectSum(got, expected, n - 1) + |got[n - 1] * expected[n - 1]|
  }

  /** Pooling never finds less correct: matches within a file are matches in the pool. */
  lemma {:induction false} PoolingNeverLoses(got: seq<multiset<Symbol>>, expected: seq<multiset<Symbol>>, n: nat)
    requires n <= |got| == |expected|
    ensures CorrectSum(got, expected, n) <= |Pool(got, n) * Pool(expected, n)|
  {
    if n > 0 {
      PoolingNeverLoses(got, expected, n - 1);
      PoolTogether(Pool(got, n - 1), Pool(expected, n - 1), got[n - 1], expected[n - 1]);
    }
  }

  lemma PoolTogether(x: multiset<Symbol>, y: multiset<Symbol>, got: multiset<Symbol>, expected: multiset<Symbol>)
    ensures |x * y| + |got * expected| <= |(x + got) * (y + expected)|
  {
    SizeGrows((x * y) + (got * expected), (x + got) * (y + expected));
  }

  /** It can find more: a symbol extracted from the wrong file counts in the pool only. */
  lemma PoolingCanGain(s: Symbol)
    ensures var got, expected := [multiset{s}, multiset{}], [multiset{}, multiset{s}];
      CorrectSum(got, expected, 2) == 0 && |Pool(got, 2) * Pool(expected, 2)| == 1
  {
    var got, expected := [multiset{s}, multiset{}], [multiset{}, multiset{s}];
    assert Pool(got, 1) == multiset{s} && Pool(got, 2) == multiset{s};
    assert Pool(expected, 1) == multiset{} && Pool(expected, 2) == multiset{s};
    assert multiset{s} * multiset{s} == multiset{s};
    assert CorrectSum(got, expected, 1) == 0;
  }

  // ---- names without kinds ------------------------------------------------------------------------

  ghost function Names(symbols: seq<Symbol>): seq<string> {
    seq(|symbols|, i requires 0 <= i < |symbols| => symbols[i].name)
  }

  /** Taking out one symbol takes out its name. */
  lemma TakeOut(symbols: seq<Symbol>, j: nat)
    requires j < |symbols|
    ensures var rest := symbols[..j] + symbols[j + 1..];
      multiset(symbols) == multiset(rest) + multiset{symbols[j]} &&
      multiset(Names(symbols)) == multiset(Names(rest)) + multiset{symbols[j].name}
  {
    var a, b := symbols[..j], symbols[j + 1..];
    assert symbols == a + [symbols[j]] + b;
    assert Names(symbols) == Names(a) + [symbols[j].name] + Names(b);
    assert Names(a + b) == Names(a) + Names(b);
  }

  /** Forgetting the kinds never loses a match. */
  lemma {:induction false} NamesMatchMore(got: seq<Symbol>, expected: seq<Symbol>)
    ensures |multiset(got) * multiset(expected)| <= |multiset(Names(got)) * multiset(Names(expected))|
    decreases |got|
  {
    if got == [] {
      assert multiset(got) * multiset(expected) == multiset{};
    } else {
      var last := got[0];
      TakeOut(got, 0);
      var front := got[..0] + got[1..];
      if last in expected {
        var j :| 0 <= j < |expected| && expected[j] == last;
        TakeOut(expected, j);
        var rest := expected[..j] + expected[j + 1..];
        NamesMatchMore(front, rest);
        MatchBoth(multiset(front), multiset(rest), last);
        MatchBoth(multiset(Names(front)), multiset(Names(rest)), last.name);
      } else {
        NamesMatchMore(front, expected);
        MatchNone(multiset(front), multiset(expected), last);
        SizeGrows(multiset(Names(front)) * multiset(Names(expected)), multiset(Names(got)) * multiset(Names(expected)));
      }
    }
  }

  lemma MatchNone<T>(x: multiset<T>, y: multiset<T>, e: T)
    requires e !in y
    ensures (x + multiset{e}) * y == x * y
  {
  }

  lemma MatchBoth<T>(x: multiset<T>, y: multiset<T>, e: T)
    ensures |(x + multiset{e}) * (y + multiset{e})| == |x * y| + 1
  {
    assert (x + multiset{e}) * (y + multiset{e}) == x * y + multiset{e};
  }

  // ---- the measurement ----------------------------------------------------------------------------

  ghost predicate Readable(files: seq<File>, n: nat)
    requires n <= |files|
  {
    forall i :: 0 <= i < n ==> files[i].parsed.Symbols?
  }

  ghost predicate CountsEachFile(got: seq<multiset<Symbol>>, expected: seq<multiset<Symbol>>, counts: seq<Counts>) {
    |counts| <= |got| == |expected| &&
    forall i :: 0 <= i < |counts| ==>
      counts[i].expected == |expected[i]| && counts[i].extracted == |got[i]| &&
      counts[i].correct == |got[i] * expected[i]|
  }

  /** The score's figures belong to these files and add up: matches found per file, matches
      found in the pool, what was missed and what was spurious. */
  ghost predicate Accounted(files: seq<File>, s: Score)
    requires s.Measured?
  {
    var got, expected := Pool(Got(files), |files|), Pool(Expected(files), |files|);
    |s.perFile| == |files| && CountsEachFile(Got(files), Expected(files), s.perFile) &&
    s.total.expected == |expected| && s.total.extracted == |got| && s.total.correct == |got * expected| &&
    s.missed == expected - got && s.spurious == got - expected &&
    |s.missed| == s.total.expected - s.total.correct && |s.spurious| == s.total.extracted - s.total.correct &&
    CorrectSum(Got(files), Expected(files), |files|) <= s.total.correct &&
    (s.total.correct == s.total.extracted == s.total.expected <==> got == expected) &&
    expected + s.spurious == got + s.missed
  }

  lemma AddsUp(files: seq<File>, perFile: seq<Counts>, got: multiset<Symbol>, expected: multiset<Symbol>)
    requires Tallied(Got(files), Expected(files), |files|, got, expected, perFile)
    ensures Accounted(files, Measured(CountsOf(got, expected), perFile, expected - got, got - expected))
  {
    MissedAndSpurious(got, expected);
    PerfectScores(got, expected);
    PoolingNeverLoses(Got(files), Expected(files), |files|);
    assert expected + (got - expected) == got + (expected - got);
  }

  /** The counters after i files. */
  ghost predicate Tallied(gots: seq<multiset<Symbol>>, expecteds: seq<multiset<Symbol>>, i: nat,
                          got: multiset<Symbol>, expected: multiset<Symbol>, perFile: seq<Counts>)
  {
    i == |perFile| <= |gots| == |expecteds| && got == Pool(gots, i) && expected == Pool(expecteds, i) &&
    CountsEachFile(gots, expecteds, perFile)
  }

  lemma TallyOneMore(gots: seq<multiset<Symbol>>, expecteds: seq<multiset<Symbol>>, i: nat,
                     got: multiset<Symbol>, expected: multiset<Symbol>, perFile: seq<Counts>)
    requires Tallied(gots, expecteds, i, got, expected, perFile) && i < |gots|
    ensures Tallied(gots, expecteds, i + 1, got + gots[i], expected + expecteds[i],
                    perFile + [CountsOf(gots[i], expecteds[i])])
  {
  }

  /** One language, its files in order: an error exactly at the first file that cannot be
      parsed, and otherwise counts that add up. */
  method Measure(files: seq<File>) returns (score: Score)
    ensures score.ParseError? ==>
      score.file < |files| && Readable(files, score.file) && files[score.file].parsed.Unreadable?
    ensures score.Measured? ==> Readable(files, |files|) && Accounted(files, score)
  {
    var gotAll, expectedAll: multiset<Symbol> := multiset{}, multiset{};
    var perFile := [];
    for i := 0 to |files|
      invariant Readable(files, i)
      invariant Tallied(Got(files), Expected(files), i, gotAll, expectedAll, perFile)
    {
      if files[i].parsed.Unreadable? { return ParseError(i); }
      var got, expected := GotOf(files[i]), files[i].expected;
      TallyOneMore(Got(files), Expected(files), i, gotAll, expectedAll, perFile);
      gotAll := gotAll + got;
      expectedAll := expectedAll + expected;
      perFile := perFile + [CountsOf(got, expected)];
    }
    AddsUp(files, perFile, gotAll, expectedAll);
    score := Measured(CountsOf(gotAll, expectedAll), perFile, expectedAll - gotAll, gotAll - expectedAll);
  }
}
