/** The concrete situations exercised by CardServiceTest, replayed on the
    model. Amounts are in cents: 500.00 is 50000. */
module CardServiceScenarios {
  import opened Wrappers
  import opened CardModel
  import opened CardService

  const User: string := "user@example.com"
  const Other: string := "other@example.com"
  const FromNumber: string := "4111111111111111"
  const ToNumber: string := "4222222222222222"
  const Expiry: Date := Date(2027, 10, 10)

  function Source(status: Status, balance: int, owner: string): Card {
    Card(1, FromNumber, owner, Expiry, status, balance)
  }

  function Destination(balance: int): Card {
    Card(2, ToNumber, Other, Expiry, Active, balance)
  }

  /** 500.00 and 200.00, 100.00 moved by the source's owner: 400.00 and 300.00. */
  lemma SuccessfulTransfer()
    ensures var s := map[FromNumber := Source(Active, 50000, User), ToNumber := Destination(20000)];
      var r := Transfer(s, User, FromNumber, ToNumber, 10000);
      && r.Ok? && r.value.1 == "Success"
      && r.value.0[FromNumber].amount == 40000
      && r.value.0[ToNumber].amount == 30000
  {
  }

  /** 2000.00 asked of a card holding 1000.00 is refused for funds, twice alike. */
  lemma InsufficientFundsTwice()
    ensures var s := map[FromNumber := Source(Active, 100000, User), ToNumber := Destination(50000)];
      var r := Transfer(s, User, FromNumber, ToNumber, 200000);
      && r == Err(InsufficientFunds(FromNumber))
      && Transfer(StoreAfter(s, r), User, FromNumber, ToNumber, 200000) == r
  {
  }

  /** With only the source card in the table, a foreign caller or a blocked
      source is never reached: the missing destination is reported first. */
  lemma OnlySourcePresent(status: Status, owner: string)
    ensures var s := map[FromNumber := Source(status, 100000, owner)];
      Transfer(s, User, FromNumber, ToNumber, 10000) == Err(NotFound(ToNumber))
  {
  }

  /** With both cards present, a foreign caller on an active source is refused
      as not the owner; a blocked source is refused for its status even then. */
  lemma BothPresentForeignOrBlocked()
    ensures var s := map[FromNumber := Source(Active, 100000, Other), ToNumber := Destination(0)];
      Transfer(s, User, FromNumber, ToNumber, 10000) == Err(Forbidden)
    ensures var s := map[FromNumber := Source(Blocked, 100000, Other), ToNumber := Destination(0)];
      Transfer(s, User, FromNumber, ToNumber, 10000) == Err(StatusViolation(Blocked))
  {
  }

  /** The owner deletes a card and blocks another one. */
  lemma OwnerDeletesAndBlocks()
    ensures var s := map[FromNumber := Source(Active, 100000, User)];
      DeleteUserCard(s, User, FromNumber) == Ok((map[], "Success"))
    ensures var s := map[FromNumber := Source(Active, 100000, User)];
      var r := UpdateCardStatus(s, User, Blocked, FromNumber);
      r.Ok? && r.value.0[FromNumber].status == Blocked
  {
  }
}
