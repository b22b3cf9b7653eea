/** The token estimator of the token-efficiency benchmark and the arithmetic the published
    ratios rest on. */
module TokenEstimator {
  import opened Ordering

  predicate IsLetter(c: char) { 'a' <= c <= 'z' || 'A' <= c <= 'Z' }

  predicate IsDigit(c: char) { '0' <= c <= '9' }

  /** What `\s` matches in a Python pattern over text. */
  predicate IsSpace(c: char) {
    '\U{9}' <= c <= '\U{D}' || '\U{1C}' <= c <= ' ' || c == '\U{85}' || c == '\U{A0}' || c == '\U{1680}' ||
    '\U{2000}' <= c <= '\U{200A}' || c == '\U{2028}' || c == '\U{2029}' || c == '\U{202F}' || c == '\U{205F}' ||
    c == '\U{3000}'
  }

  /** A character that is a token by itself: a digit, a newline, or neither letter nor space. */
  predicate IsSingle(c: char) {
    IsDigit(c) || c == '\n' || (!IsSpace(c) && !IsLetter(c))
  }

  /** What the pattern tells apart. */
  datatype Class = Letter | Single | Blank

  function ClassOf(c: char): Class {
    if IsLetter(c) then Letter else if IsSingle(c) then Single else Blank
  }

  /** The code points of the whitespace that is not counted: all of `\s` but the newline. */
  ghost predicate IsBlankPoint(p: int) {
    p == 9 || 11 <= p <= 13 || 28 <= p <= 32 || p == 0x85 || p == 0xA0 || p == 0x1680 || 0x2000 <= p <= 0x200A ||
    p == 0x2028 || p == 0x2029 || p == 0x202F || p == 0x205F || p == 0x3000
  }

  /** The classes by code point: the letters of ASCII, blanks, and everything else by itself. */
  lemma ClassesByCodePoint(c: char)
    ensures ClassOf(c) == Letter <==> 65 <= c as int <= 90 || 97 <= c as int <= 122
    ensures ClassOf(c) == Blank <==> IsBlankPoint(c as int)
  {
  }

  function Classes(text: string): (r: seq<Class>)
    ensures |r| == |text| && forall i :: 0 <= i < |text| ==> r[i] == ClassOf(text[i])
  {
    seq(|text|, i requires 0 <= i < |text| => ClassOf(text[i]))
  }

  /** Letters from position i on, at most four: what `[A-Za-z]{1,4}` takes. */
  function Take(text: seq<Class>, i: nat, limit: nat): (n: nat)
    requires i <= |text|
    ensures n <= limit && i + n <= |text|
    decreases limit
  {
    if limit > 0 && i < |text| && text[i] == Letter then 1 + Take(text, i + 1, limit - 1) else 0
  }

  /** The matches of the pattern from position i on, left to right. */
  function Scan(text: seq<Class>, i: nat): nat
    requires i <= |text|
    decreases |text| - i
  {
    if i == |text| then 0
    else if text[i] == Letter then 1 + Scan(text, i + Take(text, i, 4))
    else (if text[i] == Single then 1 else 0) + Scan(text, i + 1)
  }

  /** `estimate_tokens`. */
  function Estimate(text: string): nat { Scan(Classes(text), 0) }

  // ---- the rule as published: runs of letters and single characters ------------------------------

  /** The end of the letters that start at i. */
  ghost function RunEnd(text: seq<Class>, i: nat): (e: nat)
    requires i <= |text|
    ensures i <= e <= |text|
    ensures forall k :: i <= k < e ==> text[k] == Letter
    ensures e < |text| ==> text[e] != Letter
    decreases |text| - i
  {
    if i < |text| && text[i] == Letter then RunEnd(text, i + 1) else i
  }

  /** Tokens of a run of n letters: n / 4, rounded up. */
  ghost function RunTokens(n: nat): nat { (n + 3) / 4 }

  /** The sum over maximal letter runs of a quarter of their length, rounded up, plus the
      single characters. */
  ghost function RuleCount(text: seq<Class>, i: nat): nat
    requires i <= |text|
    decreases |text| - i
  {
    if i == |text| then 0
    else if text[i] == Letter then RunTokens(RunEnd(text, i) - i) + RuleCount(text, RunEnd(text, i))
    else (if text[i] == Single then 1 else 0) + RuleCount(text, i + 1)
  }

  lemma {:induction false} TakeIsRun(text: seq<Class>, i: nat, limit: nat)
    requires i <= |text|
    ensures var n := RunEnd(text, i) - i; Take(text, i, limit) == if n < limit then n else limit
    decreases limit
  {
    if limit > 0 && i < |text| && text[i] == Letter { TakeIsRun(text, i + 1, limit - 1); }
  }

  lemma {:induction false} RunEndInside(text: seq<Class>, i: nat, j: nat)
    requires i <= |text| && i <= j <= RunEnd(text, i)
    ensures RunEnd(text, j) == RunEnd(text, i)
    decreases j - i
  {
    if i < j { RunEndInside(text, i + 1, j); }
  }

  /** Inside a run the scan makes one token of every four letters. */
  lemma {:induction false} ScanRun(text: seq<Class>, i: nat)
    requires i <= |text|
    ensures Scan(text, i) == RunTokens(RunEnd(text, i) - i) + Scan(text, RunEnd(text, i))
    decreases |text| - i
  {
    if i < |text| && text[i] == Letter {
      var e, n := RunEnd(text, i), Take(text, i, 4);
      TakeIsRun(text, i, 4);
      RunEndInside(text, i, i + n);
      ScanRun(text, i + n);
      FourMore(e - i, n);
    }
  }

  lemma FourMore(run: nat, n: nat)
    requires n == (if run < 4 then run else 4) && run > 0
    ensures RunTokens(run) == 1 + RunTokens(run - n)
  {
  }

  /** The scan counts exactly by the published rule. */
  lemma {:induction false} ScanFollowsRule(text: seq<Class>, i: nat)
    requires i <= |text|
    ensures Scan(text, i) == RuleCount(text, i)
    decreases |text| - i
  {
    if i < |text| {
      if text[i] == Letter {
        ScanRun(text, i);
        ScanFollowsRule(text, RunEnd(text, i));
      } else {
        ScanFollowsRule(text, i + 1);
      }
    }
  }

  /** The estimate of a text is the published rule. */
  lemma EstimateFollowsRule(text: string)
    ensures Estimate(text) == RuleCount(Classes(text), 0)
  {
    ScanFollowsRule(Classes(text), 0);
  }

  // ---- concatenation -------------------------------------------------------------------------------

  /** From any position the count is the run there, if any, and what follows it. */
  lemma RuleRun(text: seq<Class>, i: nat)
    requires i <= |text|
    ensures RuleCount(text, i) == RunTokens(RunEnd(text, i) - i) + RuleCount(text, RunEnd(text, i))
  {
  }

  lemma RuleOther(text: seq<Class>, i: nat)
    requires i < |text| && text[i] != Letter
    ensures RuleCount(text, i) == (if text[i] == Single then 1 else 0) + RuleCount(text, i + 1)
  {
  }

  lemma {:induction false} RuleSuffix(a: seq<Class>, b: seq<Class>, j: nat)
    requires j <= |b|
    ensures RuleCount(a + b, |a| + j) == RuleCount(b, j)
    decreases |b| - j
  {
    if j < |b| {
      var text := a + b;
      assert text[|a| + j] == b[j];
      if b[j] == Letter {
        RunEndSuffix(a, b, j);
        RuleRun(text, |a| + j);
        RuleRun(b, j);
        RuleSuffix(a, b, RunEnd(b, j));
      } else {
        RuleOther(text, |a| + j);
        RuleOther(b, j);
        RuleSuffix(a, b, j + 1);
      }
    }
  }

  lemma {:induction false} RunEndSuffix(a: seq<Class>, b: seq<Class>, j: nat)
    requires j <= |b|
    ensures RunEnd(a + b, |a| + j) == |a| + RunEnd(b, j)
    decreases |b| - j
  {
    if j < |b| { RunEndSuffix(a, b, j + 1); }
  }

  lemma {:induction false} RunEndPrefix(a: seq<Class>, b: seq<Class>, i: nat)
    requires i <= |a|
    ensures RunEnd(a, i) < |a| ==> RunEnd(a + b, i) == RunEnd(a, i)
    ensures RunEnd(a, i) == |a| ==> RunEnd(a + b, i) == |a| + RunEnd(b, 0)
    decreases |a| - i
  {
    if i < |a| {
      RunEndPrefix(a, b, i + 1);
    } else {
      RunEndSuffix(a, b, 0);
    }
  }

  /** Where the letters that end a begin. */
  ghost function Tail(a: seq<Class>, i: nat): (t: nat)
    requires i <= |a|
    ensures i <= t <= |a|
    decreases |a| - i
  {
    if RunEnd(a, i) == |a| then i else Tail(a, i + 1)
  }

  /** Tokens lost where two texts meet in the middle of a run of k + l letters. */
  ghost function Saved(k: nat, l: nat): int { RunTokens(k) + RunTokens(l) - RunTokens(k + l) }

  lemma SavedAtMostOne(k: nat, l: nat)
    ensures 0 <= Saved(k, l) <= 1
    ensures k % 4 == 0 || l % 4 == 0 ==> Saved(k, l) == 0
  {
  }

  /** The run that ends a goes on into b. */
  lemma JoinedRun(a: seq<Class>, b: seq<Class>, i: nat)
    requires i <= |a| && RunEnd(a, i) == |a|
    ensures RuleCount(a + b, i) == RuleCount(a, i) + RuleCount(b, 0) - Saved(|a| - i, RunEnd(b, 0))
  {
    RunEndPrefix(a, b, i);
    RuleRun(a + b, i);
    RuleRun(a, i);
    RuleRun(b, 0);
    RuleSuffix(a, b, RunEnd(b, 0));
  }

  /** Joining two texts saves exactly what the meeting letter runs save. */
  lemma {:induction false} RuleJoined(a: seq<Class>, b: seq<Class>, i: nat)
    requires i <= |a|
    ensures RuleCount(a + b, i) == RuleCount(a, i) + RuleCount(b, 0) - Saved(|a| - Tail(a, i), RunEnd(b, 0))
    decreases |a| - i
  {
    var e := RunEnd(a, i);
    if e == |a| {
      JoinedRun(a, b, i);
    } else if a[i] == Letter {
      RunEndPrefix(a, b, i);
      RuleRun(a + b, i);
      RuleRun(a, i);
      TailSkips(a, i, e);
      RuleJoined(a, b, e);
    } else {
      RuleOther(a + b, i);
      RuleOther(a, i);
      RuleJoined(a, b, i + 1);
    }
  }

  lemma {:induction false} TailSkips(a: seq<Class>, i: nat, j: nat)
    requires i <= |a| && i <= j <= RunEnd(a, i) < |a|
    ensures Tail(a, i) == Tail(a, j)
    decreases j - i
  {
    if i < j {
      RunEndInside(a, i, i + 1);
      TailSkips(a, i + 1, j);
    }
  }

  /** Letters at the end and at the start of a text. */
  ghost function TrailingLetters(a: string): nat { |a| - Tail(Classes(a), 0) }

  ghost function LeadingLetters(b: string): nat { RunEnd(Classes(b), 0) }

  lemma ClassesOfJoined(a: string, b: string)
    ensures Classes(a + b) == Classes(a) + Classes(b)
  {
  }

  lemma ScanOfJoined(a: seq<Class>, b: seq<Class>)
    ensures Scan(a + b, 0) == Scan(a, 0) + Scan(b, 0) - Saved(|a| - Tail(a, 0), RunEnd(b, 0))
  {
    ScanFollowsRule(a, 0);
    ScanFollowsRule(b, 0);
    ScanFollowsRule(a + b, 0);
    RuleJoined(a, b, 0);
  }

  /** Joining loses exactly what the meeting runs save, which is at most one token. */
  lemma EstimateOfJoined(a: string, b: string)
    ensures Estimate(a + b) == Estimate(a) + Estimate(b) - Saved(TrailingLetters(a), LeadingLetters(b))
    ensures Estimate(a) + Estimate(b) - 1 <= Estimate(a + b) <= Estimate(a) + Estimate(b)
  {
    ClassesOfJoined(a, b);
    ScanOfJoined(Classes(a), Classes(b));
    SavedAtMostOne(TrailingLetters(a), LeadingLetters(b));
  }

  /** A newline in between always separates: one token more than the two parts. */
  lemma EstimateOfLines(a: string, b: string)
    ensures Estimate(a + "\n" + b) == Estimate(a) + 1 + Estimate(b)
  {
    var rest := "\n" + b;
    assert a + "\n" + b == a + rest;
    EstimateOfJoined(a, rest);
    ClassesOfJoined("\n", b);
    assert Classes("\n") == [Single];
    ScanAfterSingle(Classes(b));
    SavedAtMostOne(TrailingLetters(a), 0);
  }

  lemma ScanAfterSingle(b: seq<Class>)
    ensures Scan([Single] + b, 0) == 1 + Scan(b, 0) && RunEnd([Single] + b, 0) == 0
  {
    var rest := [Single] + b;
    ScanFollowsRule(rest, 0);
    ScanFollowsRule(b, 0);
    RuleSuffix([Single], b, 0);
  }

  // ---- texts of files ---------------------------------------------------------------------------------

  /** `"\n".join(parts)`. */
  function Join(parts: seq<string>): string {
    if parts == [] then ""
    else if |parts| == 1 then parts[0]
    else Join(parts[..|parts| - 1]) + "\n" + parts[|parts| - 1]
  }

  /** Tokens of the parts, without the newlines that join them. */
  ghost function PartTokens(parts: seq<string>): nat {
    if parts == [] then 0 else PartTokens(parts[..|parts| - 1]) + Estimate(parts[|parts| - 1])
  }

  /** A joined text costs its parts plus one token for each newline between them. */
  lemma {:induction false} EstimateOfJoin(parts: seq<string>)
    ensures Estimate(Join(parts)) == PartTokens(parts) + (if parts == [] then 0 else |parts| - 1)
  {
    if |parts| == 1 {
      assert parts[..0] == [];
    } else if |parts| > 1 {
      EstimateOfJoin(parts[..|parts| - 1]);
      EstimateOfLines(Join(parts[..|parts| - 1]), parts[|parts| - 1]);
    }
  }

  lemma {:induction false} PrefixCostsLess(parts: seq<string>, k: nat)
    requires k <= |parts|
    ensures PartTokens(parts[..k]) <= PartTokens(parts)
    decreases |parts|
  {
    if k < |parts| {
      PrefixCostsLess(parts[..|parts| - 1], k);
      assert parts[..|parts| - 1][..k] == parts[..k];
    } else {
      assert parts[..k] == parts;
    }
  }

  function Part(name: string, text: string): string { "# file: " + name + "\n" + text }

  function Parts(names: seq<string>, files: map<string, string>): (r: seq<string>)
    requires forall n :: n in names ==> n in files
    ensures |r| == |names|
  {
    if names == [] then []
    else
      assert names[|names| - 1] in names;
      Parts(names[..|names| - 1], files) + [Part(names[|names| - 1], files[names[|names| - 1]])]
  }

  lemma {:induction false} PartsOfPrefix(names: seq<string>, files: map<string, string>, k: nat)
    requires k <= |names| && forall n :: n in names ==> n in files
    ensures Parts(names[..k], files) == Parts(names, files)[..k]
    decreases |names|
  {
    if k < |names| {
      PartsOfPrefix(names[..|names| - 1], files, k);
      assert names[..|names| - 1][..k] == names[..k];
    } else {
      assert names[..k] == names;
    }
  }

  function Known(paths: seq<string>, files: map<string, string>): (r: seq<string>)
    ensures forall n :: n in r <==> n in paths && n in files
  {
    if paths == [] then []
    else
      assert paths == [paths[0]] + paths[1..];
      (if paths[0] in files then [paths[0]] else []) + Known(paths[1..], files)
  }

  lemma {:induction false} KnownDistinct(paths: seq<string>, files: map<string, string>)
    requires Distinct(paths)
    ensures Distinct(Known(paths, files))
  {
    if paths != [] {
      KnownDistinct(paths[1..], files);
      assert paths[0] !in paths[1..];
    }
  }

  /** The named files that exist, sorted; `paths` is a set, listed in any order. */
  function Present(paths: seq<string>, files: map<string, string>): seq<string> {
    Sorted(Before, Known(paths, files))
  }

  lemma PresentNames(paths: seq<string>, files: map<string, string>)
    requires Distinct(paths)
    ensures forall n :: n in Present(paths, files) <==> n in paths && n in files
    ensures forall i, j :: 0 <= i < j < |Present(paths, files)| ==>
      Before(Present(paths, files)[i], Present(paths, files)[j])
  {
    KnownDistinct(paths, files);
    SortedNames(Known(paths, files));
  }

  datatype Option<T> = None | Some(value: T)

  /** `present if cap is None else present[:cap]`. */
  function Chosen(present: seq<string>, cap: Option<nat>): (r: seq<string>)
    ensures r <= present
    ensures cap.None? ==> r == present
    ensures cap.Some? ==> |r| <= cap.value && (|r| < |present| ==> |r| == cap.value)
  {
    match cap
    case None => present
    case Some(c) => if c < |present| then present[..c] else present
  }

  lemma ChosenNames(paths: seq<string>, files: map<string, string>, chosen: seq<string>)
    requires Distinct(paths) && chosen <= Present(paths, files)
    ensures Distinct(chosen) && forall n :: n in chosen ==> n in paths && n in files
  {
    PresentNames(paths, files);
    forall n | n in chosen ensures n in Present(paths, files) {}
    KnownDistinct(paths, files);
    SortedNames(Known(paths, files));
    forall i, j | 0 <= i < j < |chosen| ensures chosen[i] != chosen[j] {
      assert chosen[i] == Present(paths, files)[i] && chosen[j] == Present(paths, files)[j];
    }
  }

  /** The text shows the named files one after the other, each under a line with its name, with a
      newline before every one but the first. */
  ghost predicate Shows(text: string, names: seq<string>, files: map<string, string>)
    decreases |names|
  {
    if names == [] then text == ""
    else
      var front, last := names[..|names| - 1], names[|names| - 1];
      last in files &&
      if front == [] then text == "# file: " + last + "\n" + files[last]
      else
        exists before :: Shows(before, front, files) &&
          text == before + "\n" + ("# file: " + last + "\n" + files[last])
  }

  lemma ShowsOneMore(before: string, front: seq<string>, last: string, files: map<string, string>)
    requires Shows(before, front, files) && front != [] && last in files
    ensures Shows(before + "\n" + Part(last, files[last]), front + [last], files)
  {
    assert (front + [last])[..|front|] == front;
  }

  lemma JoinOneMore(parts: seq<string>, part: string)
    requires parts != []
    ensures Join(parts + [part]) == Join(parts) + "\n" + part
  {
    assert (parts + [part])[..|parts|] == parts;
  }

  lemma PartsOneMore(names: seq<string>, last: string, files: map<string, string>)
    requires last in files && forall n :: n in names ==> n in files
    ensures forall n :: n in names + [last] ==> n in files
    ensures Parts(names + [last], files) == Parts(names, files) + [Part(last, files[last])]
  {
    assert (names + [last])[..|names|] == names;
  }

  lemma {:induction false} JoinShows(names: seq<string>, files: map<string, string>)
    requires forall n :: n in names ==> n in files
    ensures Shows(Join(Parts(names, files)), names, files)
  {
    if names != [] {
      var front, last := names[..|names| - 1], names[|names| - 1];
      assert names == front + [last];
      JoinShows(front, files);
      PartsOneMore(front, last, files);
      if front != [] {
        hide Shows, Join, Parts, Part;
        JoinOneMore(Parts(front, files), Part(last, files[last]));
        ShowsOneMore(Join(Parts(front, files)), front, last, files);
      }
    }
  }

  /** `_follow_up_text`: the text, the files opened, and how many the cap left out. */
  function FollowUp(paths: seq<string>, files: map<string, string>, cap: Option<nat>): (r: (string, seq<string>, nat))
    requires Distinct(paths)
    ensures r.1 <= Present(paths, files) && |r.1| + r.2 == |Present(paths, files)|
    ensures cap.None? ==> r.2 == 0
    ensures cap.Some? ==> |r.1| <= cap.value && (r.2 > 0 ==> |r.1| == cap.value)
    ensures Distinct(r.1) && forall n :: n in r.1 ==> n in paths && n in files
    ensures Shows(r.0, r.1, files)
  {
    var present := Present(paths, files);
    var chosen := Chosen(present, cap);
    ChosenNames(paths, files, chosen);
    JoinShows(chosen, files);
    (Join(Parts(chosen, files)), chosen, |present| - |chosen|)
  }

  /** Tokens of an answer followed by the text of the files it names. */
  function CombinedTokens(answer: string, paths: seq<string>, files: map<string, string>, cap: Option<nat>): (n: nat)
    requires Distinct(paths)
    ensures n == Estimate(answer) + 1 + Estimate(FollowUp(paths, files, cap).0)
  {
    EstimateOfLines(answer, FollowUp(paths, files, cap).0);
    Estimate(answer + "\n" + FollowUp(paths, files, cap).0)
  }

  lemma FewerCostLess(answer: string, present: seq<string>, files: map<string, string>, k: nat)
    requires k <= |present| && forall n :: n in present ==> n in files
    ensures Estimate(answer + "\n" + Join(Parts(present[..k], files)))
         <= Estimate(answer + "\n" + Join(Parts(present, files)))
    ensures 1 <= Estimate(answer + "\n" + Join(Parts(present[..k], files)))
  {
    TokensOfFollowUp(answer, present[..k], files);
    TokensOfFollowUp(answer, present, files);
    PartsOfPrefix(present, files, k);
    PrefixCostsLess(Parts(present, files), k);
  }

  /** A cap never makes the follow-up dearer. */
  lemma CapNeverCostsMore(answer: string, paths: seq<string>, files: map<string, string>, cap: nat)
    requires Distinct(paths)
    ensures 1 <= CombinedTokens(answer, paths, files, Some(cap)) <= CombinedTokens(answer, paths, files, None)
  {
    PresentNames(paths, files);
    var present := Present(paths, files);
    var k := |Chosen(present, Some(cap))|;
    assert Chosen(present, Some(cap)) == present[..k];
    FewerCostLess(answer, present, files, k);
  }

  lemma TokensOfFollowUp(answer: string, names: seq<string>, files: map<string, string>)
    requires forall n :: n in names ==> n in files
    ensures Estimate(answer + "\n" + Join(Parts(names, files)))
         == Estimate(answer) + 1 + PartTokens(Parts(names, files)) + (if names == [] then 0 else |names| - 1)
  {
    EstimateOfLines(answer, Join(Parts(names, files)));
    EstimateOfJoin(Parts(names, files));
  }

  /** `_ratio`, before rounding: no figure for an empty denominator. */
  function Ratio(numerator: nat, denominator: nat): (r: Option<real>)
    ensures r.None? <==> denominator == 0
    ensures r.Some? ==> r.value * denominator as real == numerator as real
  {
    if denominator == 0 then None else Some(numerator as real / denominator as real)
  }

  lemma RatioOrder(full: nat, small: nat, large: nat)
    requires 1 <= small <= large
    ensures full as real / large as real <= full as real / small as real
  {
    var f, s, l := full as real, small as real, large as real;
    var p, q := f / l, f / s;
    assert p * l == f && q * s == f;
    assert q >= 0.0;
    if p > q {
      RatioGap(p, q, l, s);
    }
  }

  lemma RatioGap(p: real, q: real, l: real, s: real)
    requires p > q >= 0.0 && l >= s >= 1.0
    ensures p * l > q * s
  {
    assert (p - q) * l > 0.0;
    assert q * (l - s) >= 0.0;
    assert p * l - q * s == (p - q) * l + q * (l - s);
  }

  /** Both published ratios exist, and charging for every named file never looks better than
      charging for the capped ones. */
  lemma UncappedRatioNeverHigher(full: nat, answer: string, paths: seq<string>, files: map<string, string>, cap: nat)
    requires Distinct(paths)
    ensures var capped := Ratio(full, CombinedTokens(answer, paths, files, Some(cap)));
            var uncapped := Ratio(full, CombinedTokens(answer, paths, files, None));
            capped.Some? && uncapped.Some? && uncapped.value <= capped.value
  {
    CapNeverCostsMore(answer, paths, files, cap);
    RatioOrder(full, CombinedTokens(answer, paths, files, Some(cap)), CombinedTokens(answer, paths, files, None));
  }
}
