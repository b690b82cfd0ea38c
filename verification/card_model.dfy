/** The card entity (org.example.model.Card) and the view of it handed back to
    clients (org.example.model.dto.CardDto). */
module CardModel {

  /** The three states a card can be in (org.example.model.dto.enums.Status). */
  datatype Status = Active | Blocked | Expired

  /** A calendar date. Every card stores one; no card operation consults it. */
  datatype Date = Date(year: int, month: int, day: int)

  /** One row of the `cards` table. `amount` is the balance in minor currency
      units: the source keeps it as an exact decimal and only compares, adds
      and subtracts, so integers at one fixed scale stand for it. */
  datatype Card = Card(
    id: int,
    number: string,
    userEmail: string,
    expirationDate: Date,
    status: Status,
    amount: int
  )

  /** What clients see of a card: the id and the owner are not exposed. */
  datatype CardDto = CardDto(
    number: string,
    expirationDate: Date,
    status: Status,
    amount: int
  )

  /** The field-by-field copy the mapper generates from Card to CardDto.
      The view loses exactly the id and the owner: given those back, the
      reverse mapping restores the card. */
  function ToDto(c: Card): (d: CardDto)
    ensures FromDto(d, c.id, c.userEmail) == c
  {
    CardDto(c.number, c.expirationDate, c.status, c.amount)
  }

  /** The mapper's copy from CardDto back to Card. The view has no id and no
      owner, so the generated code leaves them unset; here the caller
      supplies them. */
  function FromDto(d: CardDto, id: int, userEmail: string): Card {
    Card(id, d.number, userEmail, d.expirationDate, d.status, d.amount)
  }

  /** Two cards have the same view exactly when they differ at most in id
      and owner. */
  lemma ToDtoForgetsIdAndOwner(c1: Card, c2: Card)
    ensures ToDto(c1) == ToDto(c2) <==> c1 == c2.(id := c1.id, userEmail := c1.userEmail)
  {
    if ToDto(c1) == ToDto(c2) {
      assert FromDto(ToDto(c2), c1.id, c1.userEmail) == c2.(id := c1.id, userEmail := c1.userEmail);
    }
  }

  /** `after` is `before` with at most its balance changed. */
  predicate OnlyAmountChanged(before: Card, after: Card) {
    after == before.(amount := after.amount)
  }

  /** `after` is `before` with at most its status changed. */
  predicate OnlyStatusChanged(before: Card, after: Card) {
    after == before.(status := after.status)
  }
}
