/** Money held by the whole card table, and the invariants the card
    operations keep about it. */
module Ledger {
  import opened CardModel
  import opened CardRepository

  /** Some card number of a non-empty table. */
  ghost function Pick(s: Store): (k: string)
    requires s != map[]
    ensures k in s
  {
    var k :| k in s; k
  }

  /** The sum of all balances in the table. */
  ghost function Total(s: Store): int
    decreases |s|
  {
    if s == map[] then 0
    else
      var k := Pick(s);
      assert (s - {k}).Keys == s.Keys - {k};
      s[k].amount + Total(s - {k})
  }

  /** No card of the table holds a negative balance. */
  ghost predicate NonNegative(s: Store) {
    forall k :: k in s ==> s[k].amount >= 0
  }

  /** The sum does not depend on which card is taken out first. */
  lemma {:induction false} TotalRemove(s: Store, k: string)
    requires k in s
    ensures Total(s) == s[k].amount + Total(s - {k})
    decreases |s|
  {
    var j := Pick(s);
    if j != k {
      assert (s - {j}).Keys == s.Keys - {j};
      assert (s - {k}).Keys == s.Keys - {k};
      TotalRemove(s - {j}, k);
      TotalRemove(s - {k}, j);
      assert s - {j} - {k} == s - {k} - {j};
    }
  }

  /** Replacing one card changes the sum by exactly the change in its balance. */
  lemma TotalUpdate(s: Store, k: string, c: Card)
    requires k in s
    ensures Total(s[k := c]) == Total(s) - s[k].amount + c.amount
  {
    TotalRemove(s[k := c], k);
    TotalRemove(s, k);
    assert s[k := c] - {k} == s - {k};
  }
}
