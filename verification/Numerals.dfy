/** Python's `str` of an integer, as it stands in names and messages. */
module Numerals {
  import opened Ordering

  /** A digit counts what its code point lies above that of '0'. */
  ghost function DigitValue(c: char): int { c as int - '0' as int }

  /** What a string of digits reads as, base ten. */
  ghost function ReadBack(s: string): int {
    if s == "" then 0 else 10 * ReadBack(s[..|s| - 1]) + DigitValue(s[|s| - 1])
  }

  /** Decimal digits only, and none of them a leading zero. */
  ghost predicate IsNumeral(s: string) {
    s != "" && (forall i :: 0 <= i < |s| ==> '0' <= s[i] <= '9') && (|s| > 1 ==> s[0] != '0')
  }

  function Digit(d: nat): (c: char)
    requires d < 10
    ensures '0' <= c <= '9' && DigitValue(c) == d
  {
    ('0' as int + d) as char
  }

  /** `str(n)`: the digits that read back as n. */
  function Decimal(n: nat): (s: string)
    ensures IsNumeral(s) && ReadBack(s) == n && (n > 0 ==> s[0] != '0')
  {
    if n < 10 then [Digit(n)]
    else
      var front := Decimal(n / 10);
      var s := front + [Digit(n % 10)];
      assert s[..|s| - 1] == front;
      s
  }

  /** `str` of any integer. */
  function Signed(n: int): (s: string)
    ensures n >= 0 ==> IsNumeral(s) && ReadBack(s) == n
    ensures n < 0 ==> |s| > 1 && s[0] == '-' && IsNumeral(s[1..]) && ReadBack(s[1..]) == -n
  {
    if n < 0 then
      var s := "-" + Decimal(-n);
      assert s[1..] == Decimal(-n);
      s
    else Decimal(n)
  }

  lemma {:induction false} ReadBackSigns(s: string)
    requires forall i :: 0 <= i < |s| ==> '0' <= s[i] <= '9'
    ensures ReadBack(s) >= 0
    ensures s != "" && s[0] != '0' ==> ReadBack(s) > 0
  {
    if s != "" { ReadBackSigns(s[..|s| - 1]); }
  }

  /** A number has one numeral. */
  lemma {:induction false} NumeralUnique(s: string, t: string)
    requires IsNumeral(s) && IsNumeral(t) && ReadBack(s) == ReadBack(t)
    ensures s == t
    decreases |s|
  {
    var front, rear := s[..|s| - 1], t[..|t| - 1];
    assert s == front + [s[|s| - 1]] && t == rear + [t[|t| - 1]];
    ReadBackSigns(front);
    ReadBackSigns(rear);
    assert ReadBack(front) == ReadBack(rear) && s[|s| - 1] == t[|t| - 1];
    if front != "" && rear != "" { NumeralUnique(front, rear); }
  }

  lemma DecimalInjective(n: nat, m: nat)
    requires Decimal(n) == Decimal(m)
    ensures n == m
  {
  }

  // ---- the order of numerals -------------------------------------------------------------------

  /** Names of one length are ordered by what comes before their last characters, then by these. */
  lemma {:induction false} BeforeOneMore(a: string, b: string, x: char, y: char)
    requires |a| == |b|
    ensures Before(a + [x], b + [y]) <==> Before(a, b) || (a == b && x < y)
  {
    if a != "" {
      BeforeOneMore(a[1..], b[1..], x, y);
      assert a == [a[0]] + a[1..] && b == [b[0]] + b[1..];
      assert (a + [x])[1..] == a[1..] + [x] && (b + [y])[1..] == b[1..] + [y];
    }
  }

  /** Numerals of one length come in the order of their numbers. */
  lemma {:induction false} SameLengthOrder(s: string, t: string)
    requires IsNumeral(s) && IsNumeral(t) && |s| == |t|
    ensures Before(s, t) <==> ReadBack(s) < ReadBack(t)
  {
    var front, rear := s[..|s| - 1], t[..|t| - 1];
    assert s == front + [s[|s| - 1]] && t == rear + [t[|t| - 1]];
    BeforeOneMore(front, rear, s[|s| - 1], t[|t| - 1]);
    if front != "" {
      SameLengthOrder(front, rear);
      if ReadBack(front) == ReadBack(rear) { NumeralUnique(front, rear); }
      BeforeTotal(front, rear);
    }
  }

  /** Of different lengths they need not. */
  lemma TenBeforeTwo()
    ensures Decimal(10) == "10" && Decimal(2) == "2" && Before("10", "2")
  {
  }
}
