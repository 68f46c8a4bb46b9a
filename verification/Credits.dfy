/** The credit a member's transactions are worth: the sum of their amounts,
    capped at `Credit.MAX`. */
module Credits {
  import opened Fields

  /** Some transaction of a non-empty set; which one is left unspecified, as
      the iteration order of a Java `HashSet` is. */
  ghost function PickTransaction(s: set<Transaction>): (t: Transaction)
    requires s != {}
    ensures t in s
  {
    var t :| t in s; t
  }

  /** The sum of the amounts of a set of transactions. */
  ghost function SumAmounts(s: set<Transaction>): int
    decreases s
  {
    if s == {} then 0
    else
      var t := PickTransaction(s);
      t.amount + SumAmounts(s - {t})
  }

  /** The sum does not depend on the order the set is walked in: any member
      may be taken out first. */
  lemma {:induction false} SumAmountsRemove(s: set<Transaction>, t: Transaction)
    requires t in s
    ensures SumAmounts(s) == t.amount + SumAmounts(s - {t})
    decreases s
  {
    var u := PickTransaction(s);
    if u != t {
      SumAmountsRemove(s - {u}, t);
      SumAmountsRemove(s - {t}, u);
      assert s - {u} - {t} == s - {t} - {u};
    }
  }

  /** Adding a transaction the set does not hold adds its amount. */
  lemma SumAmountsInsert(s: set<Transaction>, t: Transaction)
    requires t !in s
    ensures SumAmounts(s + {t}) == SumAmounts(s) + t.amount
  {
    SumAmountsRemove(s + {t}, t);
    assert s + {t} - {t} == s;
  }

  /** The credit a sum of amounts is worth: the sum, or `Credit.MAX` when the
      sum is larger. */
  function CappedCredit(sum: int): (c: Credit)
    ensures c.value <= CreditMax
    ensures c.value <= sum
    ensures c.value == sum || c.value == CreditMax
  {
    Credit(if sum < CreditMax then sum else CreditMax)
  }

  /** Walks a set of transactions and adds up their amounts, in whatever
      order the set yields them. */
  method TotalAmount(s: set<Transaction>) returns (total: int)
    ensures total == SumAmounts(s)
  {
    total := 0;
    var rest := s;
    while rest != {}
      invariant rest <= s
      invariant total + SumAmounts(rest) == SumAmounts(s)
      decreases rest
    {
      var t :| t in rest;
      SumAmountsRemove(rest, t);
      total := total + t.amount;
      rest := rest - {t};
    }
  }
}
