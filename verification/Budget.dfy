/** The budget account of a task. */
module Budgeting {
  import opened Numerals

  /** An exception, as the coordinator tells them apart: a BudgetExceededError with its code, or any other. */
  datatype Error = OverBudget(code: string, message: string) | Other(message: string)
  datatype Verdict = Charged | Refused(error: Error)

  function Most(x: int, y: int): (m: int)
    ensures m >= x && m >= y && (m == x || m == y)
  {
    if x >= y then x else y
  }

  /** The charge goes through, given what is used already. */
  ghost predicate Fits(total: int, used: int, units: int) {
    0 <= units <= total - used
  }

  /** What a run of charges leaves used, refused ones leaving it alone. */
  ghost function Spent(total: int, charges: seq<int>): int {
    if charges == [] then 0
    else
      var used := Spent(total, charges[..|charges| - 1]);
      var units := charges[|charges| - 1];
      if Fits(total, used, units) then used + units else used
  }

  /** Over any run of charges: use never falls, stays within the total when that is not
      negative, and is zero under a negative total. */
  lemma {:induction false} SpentIsBounded(total: int, charges: seq<int>, n: nat)
    requires n <= |charges|
    ensures 0 <= Spent(total, charges[..n]) <= Spent(total, charges) <= Most(0, total)
  {
    if charges == [] {
    } else if n == |charges| {
      assert charges[..n] == charges;
      SpentIsBounded(total, charges[..n - 1], 0);
    } else {
      assert charges[..|charges| - 1][..n] == charges[..n];
      SpentIsBounded(total, charges[..|charges| - 1], n);
    }
  }

  /** A non-negative charge counts in full when it fits what remains, and not at all otherwise. */
  lemma ChargeFits(total: int, charges: seq<int>, units: int)
    requires units >= 0
    ensures Spent(total, charges + [units]) ==
      Spent(total, charges) + if units <= total - Spent(total, charges) then units else 0
    ensures total >= 0 ==> total - Spent(total, charges) == Most(0, total - Spent(total, charges))
  {
    assert (charges + [units])[..|charges|] == charges;
    SpentIsBounded(total, charges, 0);
  }

  class BudgetAccount {
    const total: int
    var used: int
    ghost var charges: seq<int>

    ghost predicate Valid()
      reads this
    {
      used == Spent(total, charges)
    }

    constructor (total: int)
      ensures Valid() && this.total == total && used == 0 && charges == []
    {
      this.total, used, charges := total, 0, [];
    }

    /** A charge goes through exactly when it is not negative and fits what remains; otherwise it
        is refused with an error that says why, and changes nothing. */
    method Charge(units: int) returns (outcome: Verdict)
      requires Valid()
      modifies this
      ensures Valid() && charges == old(charges) + [units]
      ensures outcome.Charged? <==> 0 <= units <= total - old(used)
      ensures used == if outcome.Charged? then old(used) + units else old(used)
      ensures units < 0 ==> outcome == Refused(Other("units must be non-negative"))
      ensures units >= 0 && units > total - old(used) ==>
        outcome == Refused(OverBudget("dkg/budget/exceeded",
          "budget exceeded: used=" + Signed(old(used)) + " + charge=" + Signed(units) + " > total=" + Signed(total)))
    {
      charges := charges + [units];
      assert charges[..|charges| - 1] == old(charges);
      if units < 0 { return Refused(Other("units must be non-negative")); }
      if used + units > total {
        var message :=
          "budget exceeded: used=" + Signed(used) + " + charge=" + Signed(units) + " > total=" + Signed(total);
        return Refused(OverBudget("dkg/budget/exceeded", message));
      }
      used := used + units;
      return Charged;
    }

    /** What is left is the largest charge that would still go through. */
    method Remaining() returns (left: int)
      requires Valid()
      ensures if total < 0 then left == 0 else left >= 0 && used + left == total
      ensures total >= 0 ==> forall units :: Fits(total, used, units) <==> 0 <= units <= left
    {
      SpentIsBounded(total, charges, 0);
      left := Most(0, total - used);
    }
  }
}
