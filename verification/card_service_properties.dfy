/** What the card operations promise across calls: the order in which
    transfer checks report errors, that failures change nothing, and the
    table invariants each operation keeps. */
module CardServiceProperties {
  import opened Wrappers
  import opened CardModel
  import opened CardRepository
  import opened CardService
  import opened Ledger

  // ----- transfer: which error a rejected request receives -----

  /** Equal numbers are refused before the table is consulted: the outcome is
      the same for every table. */
  lemma TransferSameCard(s: Store, caller: string, number: string, amount: int)
    ensures Transfer(s, caller, number, number, amount) == Err(InvalidRequest(SameCard))
  {
  }

  /** The source is looked up first; its absence is reported whatever else is wrong. */
  lemma TransferMissingSource(s: Store, caller: string, from: string, to: string, amount: int)
    requires from != to && from !in s
    ensures Transfer(s, caller, from, to, amount) == Err(NotFound(from))
  {
  }

  /** The destination is looked up second, still before any other check. */
  lemma TransferMissingDestination(s: Store, caller: string, from: string, to: string, amount: int)
    requires from != to && from in s && to !in s
    ensures Transfer(s, caller, from, to, amount) == Err(NotFound(to))
  {
  }

  /** With both cards found, a non-positive amount is refused whatever the
      statuses, owner and balances. */
  lemma TransferNonPositiveAmount(s: Store, caller: string, from: string, to: string, amount: int)
    requires from != to && from in s && to in s
    requires amount <= 0
    ensures Transfer(s, caller, from, to, amount) == Err(InvalidRequest(NonPositiveAmount))
  {
  }

  /** A blocked or expired source is reported before the destination's
      status, the owner and the funds. */
  lemma TransferSourceStatus(s: Store, caller: string, from: string, to: string, amount: int)
    requires from != to && from in s && to in s && amount > 0
    requires s[from].status != Active
    ensures Transfer(s, caller, from, to, amount) == Err(StatusViolation(s[from].status))
  {
  }

  /** A blocked or expired destination is reported before the owner and the funds. */
  lemma TransferDestinationStatus(s: Store, caller: string, from: string, to: string, amount: int)
    requires from != to && from in s && to in s && amount > 0
    requires s[from].status == Active && s[to].status != Active
    ensures Transfer(s, caller, from, to, amount) == Err(StatusViolation(s[to].status))
  {
  }

  /** A caller who does not own the source is refused whatever the balances. */
  lemma TransferNotOwner(s: Store, caller: string, from: string, to: string, amount: int)
    requires from != to && from in s && to in s && amount > 0
    requires s[from].status == Active && s[to].status == Active
    requires s[from].userEmail != caller
    ensures Transfer(s, caller, from, to, amount) == Err(Forbidden)
  {
  }

  /** The funds check comes last and is strict: only a balance below the amount
      fails. The error names the number stored on the source card. */
  lemma TransferInsufficientFunds(s: Store, caller: string, from: string, to: string, amount: int)
    requires from != to && from in s && to in s && amount > 0
    requires s[from].status == Active && s[to].status == Active
    requires s[from].userEmail == caller
    requires s[from].amount < amount
    ensures Transfer(s, caller, from, to, amount) == Err(InsufficientFunds(s[from].number))
  {
  }

  /** A balance exactly equal to the amount may be sent in full. */
  lemma TransferWholeBalance(s: Store, caller: string, from: string, to: string)
    requires from != to && from in s && to in s && s[from].amount > 0
    requires s[from].status == Active && s[to].status == Active
    requires s[from].userEmail == caller
    ensures var r := Transfer(s, caller, from, to, s[from].amount);
      r.Ok? && r.value.0[from].amount == 0
  {
  }

  /** A refused transfer leaves the table as it was, and sending the same
      request again is refused with the same error. In the model this holds
      by representation: an error carries no table. In the code it holds
      because every check throws before the balances are first written. */
  lemma TransferFailureIsInert(s: Store, caller: string, from: string, to: string, amount: int)
    requires Transfer(s, caller, from, to, amount).Err?
    ensures StoreAfter(s, Transfer(s, caller, from, to, amount)) == s
    ensures Transfer(StoreAfter(s, Transfer(s, caller, from, to, amount)), caller, from, to, amount)
      == Transfer(s, caller, from, to, amount)
  {
  }

  /** Transfers raise only validation, lookup and security errors, never the
      storage-layer one: a case split over the errors a transfer can raise. */
  lemma TransferErrorClasses(s: Store, caller: string, from: string, to: string, amount: int)
    requires Transfer(s, caller, from, to, amount).Err?
    ensures ClassOf(Transfer(s, caller, from, to, amount).error) != SqlScript
  {
  }

  // ----- invariants of the table -----

  /** A transfer keeps the table well formed and free of negative balances,
      and the money in the whole table stays the same. */
  lemma TransferPreservesTable(s: Store, caller: string, from: string, to: string, amount: int)
    requires WellFormed(s) && NonNegative(s)
    requires Transfer(s, caller, from, to, amount).Ok?
    ensures var s' := Transfer(s, caller, from, to, amount).value.0;
      WellFormed(s') && NonNegative(s') && Total(s') == Total(s)
  {
    var s' := Transfer(s, caller, from, to, amount).value.0;
    var debited := s[from].(amount := s[from].amount - amount);
    var credited := s[to].(amount := s[to].amount + amount);
    assert s' == s[from := debited][to := credited];
    TotalUpdate(s, from, debited);
    TotalUpdate(s[from := debited], to, credited);
  }

  /** Deleting a card keeps the table well formed and free of negative
      balances; the table then holds that card's balance less. */
  lemma DeletePreservesTable(s: Store, caller: string, number: string)
    requires WellFormed(s) && NonNegative(s)
    requires DeleteUserCard(s, caller, number).Ok?
    ensures var s' := DeleteUserCard(s, caller, number).value.0;
      WellFormed(s') && NonNegative(s') && Total(s') == Total(s) - s[number].amount
  {
    TotalRemove(s, number);
  }

  /** Changing a status keeps the table well formed, free of negative
      balances, and holding the same money. */
  lemma UpdateStatusPreservesTable(s: Store, caller: string, status: Status, number: string)
    requires WellFormed(s) && NonNegative(s)
    requires UpdateCardStatus(s, caller, status, number).Ok?
    ensures var s' := UpdateCardStatus(s, caller, status, number).value.0;
      WellFormed(s') && NonNegative(s') && Total(s') == Total(s)
  {
    TotalUpdate(s, number, s[number].(status := status));
  }

  // ----- delete and status update -----

  /** A refused delete leaves the card where it was, unchanged. */
  lemma DeleteFailureKeepsCard(s: Store, caller: string, number: string)
    requires number in s
    requires DeleteUserCard(s, caller, number).Err?
    ensures DeleteUserCard(s, caller, number).error == Forbidden
    ensures number in StoreAfter(s, DeleteUserCard(s, caller, number))
    ensures StoreAfter(s, DeleteUserCard(s, caller, number))[number] == s[number]
  {
  }

  /** A refused status update leaves the card where it was, unchanged. */
  lemma UpdateStatusFailureKeepsCard(s: Store, caller: string, status: Status, number: string)
    requires number in s
    requires UpdateCardStatus(s, caller, status, number).Err?
    ensures UpdateCardStatus(s, caller, status, number).error == OwnerCheckFailed
    ensures number in StoreAfter(s, UpdateCardStatus(s, caller, status, number))
    ensures StoreAfter(s, UpdateCardStatus(s, caller, status, number))[number] == s[number]
  {
  }

  /** The owner may set any status from any status: an expired card can be
      made active again. */
  lemma UpdateStatusAnyTransition(s: Store, caller: string, status: Status, number: string)
    requires number in s && s[number].userEmail == caller
    ensures var r := UpdateCardStatus(s, caller, status, number);
      r.Ok? && r.value.0[number].status == status && r.value.1.status == status
  {
  }
}
