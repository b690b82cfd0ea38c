# Card operations of Bank_Rest, modelled in Dafny

This project models the card service of a small banking REST application
(`org.example.service.CardService`). The service keeps payment cards: each has
an owner's email, a number, a status (`ACTIVE`, `BLOCKED` or `EXPIRED`) and a
balance. It moves money between two cards, deletes a card, changes a card's
status, and lists cards.

The card table is an immutable `map<string, Card>` keyed by card number. Each
mutating operation is a pure function of the table, the caller's email and the
request. It returns `Ok((newTable, reply))` or `Err(error)`, with one error
constructor per kind of failure the Java code throws. `ClassOf` maps each error back to its
exception class. A failed operation produces no new table, and
`StoreAfter` gives the table the caller then observes. Balances are integers
in minor currency units. The source uses exact `BigDecimal` arithmetic and only
compares, adds and subtracts, so a fixed scale is exact.

Files:

- `wrappers.dfy`: `Option` and `Result`.
- `card_model.dfy`: `Card`, `CardDto`, `Status`, and the mapper's `ToDto`.
- `card_repository.dfy`: the table, `findByNumber`, `findByUserEmail`, `findAll`,
  and the consistency assumed of it (`WellFormed`: each card sits under its own
  number, ids are unique). The table does not force card numbers to be
  unique; keying the map by number assumes they are.
- `card_service.dfy`: the operations.
- `ledger.dfy`: `Total`, the sum of all balances in the table, and `NonNegative`.
- `transfer_check_list.dfy`: the transfer's checks written as an ordered list,
  where the first failing check names the error. A lemma shows that the code
  agrees with the list on every input.
- `card_service_properties.dfy`: the transfer error order, inertness of
  failures, and the table invariants each operation keeps.
- `card_service_scenarios.dfy`: the unit tests' situations replayed on the model.

Behaviour of the code worth noting:

- `transferFunds` looks up both cards before it checks that the amount is
  positive. It also checks both statuses before ownership. So a non-owner
  sending from a blocked card gets the status error.
- `updateCardStatus` requires the caller to own the card, although its endpoint
  is reserved to administrators. A non-owner gets a `SqlScriptException`
  (`OwnerCheckFailed`), not a security error. The code has no privilege flag,
  so the model has none either.
- Any status can be set from any status, including `EXPIRED` back to `ACTIVE`
  (`UpdateStatusAnyTransition`).
- The balance invariant is conditional: card creation accepts any initial
  amount, so `NonNegative` is shown to be preserved, not established.

Some unit tests can never pass as written. `transferFunds_ShouldThrowSecurityException_WhenUserNotOwner`
and `transferFunds_ShouldThrowException_WhenCardBlocked` stub only the source
lookup. By the code's order they get `EntityNotFoundException` for the
destination (`OnlySourcePresent`), not the `SecurityException` they expect.

## Model

| member | source | states |
|---|---|---|
| CardModel.ToDto | src/main/java/org/example/model/dto/mapper/CardMapper.java:9 | copies number, expiration date, status and amount; the view loses exactly the id and the owner, so mapping it back with those two restores the card |
| CardModel.ToDtoForgetsIdAndOwner | src/main/java/org/example/model/dto/mapper/CardMapper.java:9-11 | two cards have the same view exactly when they differ at most in id and owner |
| CardRepository.FindByNumber | src/main/java/org/example/repository/CardRepository.java:14 | a card exactly when one is stored under that number, and then that card, whose number is the one asked for in a consistent table |
| CardRepository.FindByUserEmail | src/main/java/org/example/repository/CardRepository.java:12 | lists every card whose owner is the given email, each exactly once, and no other card |
| CardRepository.FindAll | src/main/java/org/example/repository/CardRepository.java:11 | lists every card of the table exactly once; as many cards as the table holds |
| CardService.ValidateStatus | src/main/java/org/example/service/CardService.java:111-115 | a card passes exactly when it is ACTIVE; otherwise the error carries the card's status |
| CardService.ValidateCards | src/main/java/org/example/service/CardService.java:92-109 | no error exactly when the amount is positive, both cards are ACTIVE, the caller owns the source and the source balance covers the amount |
| CardService.Transfer | src/main/java/org/example/service/CardService.java:50-68 | succeeds exactly when all eight conditions hold; then only the two balances change, by the amount, their sum is kept, the source stays non-negative, and the reply is "Success" |
| CardService.DeleteUserCard | src/main/java/org/example/service/CardService.java:70-79 | NotFound exactly when the card is missing, Forbidden exactly when the caller is not its owner, success exactly when the owner asks; then exactly that card is removed and every other card is kept |
| CardService.UpdateCardStatus | src/main/java/org/example/service/CardService.java:81-90 | NotFound exactly when the card is missing, the storage-layer owner error exactly when the caller is not its owner, success exactly when the owner asks; then only that card's status changes, to the requested one, and the saved card's view is returned |
| CardService.GetUserCards | src/main/java/org/example/service/CardService.java:36-41 | returns one view per card owned by the email, each the view of a distinct owned card, and no other |
| CardService.GetAllCards | src/main/java/org/example/service/CardService.java:43-48 | returns one view per card in the table, each the view of a distinct card |
| TransferCheckList.ValidateCardsFollowsChecks | src/main/java/org/example/service/CardService.java:92-115 | once both cards are found, the error raised is that of the first failing check in the order amount, source status, destination status, ownership, funds, and there is none when all pass |
| TransferCheckList.TransferFollowsChecks | src/main/java/org/example/service/CardService.java:50-115 | for every input, a transfer succeeds exactly when all eight checks pass, and otherwise fails with the error of the first failing check in the code's order |
| CardServiceProperties.TransferSameCard | src/main/java/org/example/service/CardService.java:53-55 | equal numbers are refused as an invalid request for every table, so before any lookup |
| CardServiceProperties.TransferMissingSource | src/main/java/org/example/service/CardService.java:56-57 | a missing source is reported as not found, whatever the destination, amount or caller |
| CardServiceProperties.TransferMissingDestination | src/main/java/org/example/service/CardService.java:58-59 | with the source present, a missing destination is reported as not found before any other check |
| CardServiceProperties.TransferNonPositiveAmount | src/main/java/org/example/service/CardService.java:98-100 | with both cards present, an amount of zero or less is refused whatever the statuses, owner and balances |
| CardServiceProperties.TransferSourceStatus | src/main/java/org/example/service/CardService.java:101 | a blocked or expired source is refused with its status, before the destination status, ownership and funds |
| CardServiceProperties.TransferDestinationStatus | src/main/java/org/example/service/CardService.java:102 | an active source with a blocked or expired destination is refused with the destination's status, before ownership and funds |
| CardServiceProperties.TransferNotOwner | src/main/java/org/example/service/CardService.java:103-105 | once both cards are active, a caller who does not own the source is forbidden, whatever the balance |
| CardServiceProperties.TransferInsufficientFunds | src/main/java/org/example/service/CardService.java:106-108 | when every other check passes, a source balance below the amount is refused for insufficient funds |
| CardServiceProperties.TransferWholeBalance | src/main/java/org/example/service/CardService.java:106 | a balance exactly equal to the amount may be sent, leaving the source at zero |
| CardServiceProperties.TransferFailureIsInert | src/main/java/org/example/service/CardService.java:53-61 | a refused transfer leaves the table as it was, and repeating it gets the same error |
| CardServiceProperties.TransferErrorClasses | src/main/java/org/example/service/CardService.java:50-115 | a transfer never raises the storage-layer exception |
| CardServiceProperties.TransferPreservesTable | src/main/java/org/example/service/CardService.java:62-66 | a successful transfer keeps the table well formed and without negative balances, and keeps the money in the whole table |
| CardServiceProperties.DeletePreservesTable | src/main/java/org/example/service/CardService.java:77 | a delete keeps the table well formed and without negative balances, and the table then holds exactly the deleted card's balance less |
| CardServiceProperties.UpdateStatusPreservesTable | src/main/java/org/example/service/CardService.java:88-89 | a status change keeps the table well formed, without negative balances, and holding the same money |
| CardServiceProperties.DeleteFailureKeepsCard | src/main/java/org/example/service/CardService.java:74-76 | a refused delete of an existing card is Forbidden and leaves that card present and unchanged |
| CardServiceProperties.UpdateStatusFailureKeepsCard | src/main/java/org/example/service/CardService.java:85-87 | a refused status update of an existing card is the owner error and leaves that card present and unchanged |
| CardServiceProperties.UpdateStatusAnyTransition | src/main/java/org/example/service/CardService.java:88 | the owner may set any status from any status; the returned view shows the new status |
| CardServiceScenarios.SuccessfulTransfer | src/test/java/CardServiceTest.java:93-120 | 500.00 and 200.00 with 100.00 moved by the owner become 400.00 and 300.00, reply "Success" |
| CardServiceScenarios.InsufficientFundsTwice | src/test/java/CardServiceTest.java:150-174 | 2000.00 from 1000.00 is refused for insufficient funds, and again identically |
| CardServiceScenarios.OnlySourcePresent | src/test/java/CardServiceTest.java:131-148 | with only the source stubbed, a foreign or blocked source is never reached: the missing destination is reported |
| CardServiceScenarios.BothPresentForeignOrBlocked | src/main/java/org/example/service/CardService.java:101-105 | with both cards present, a foreign caller is forbidden, and a blocked source gets the status error even for a foreign caller |
| CardServiceScenarios.OwnerDeletesAndBlocks | src/test/java/CardServiceTest.java:176-195 | the owner deletes a card, leaving an empty table, and blocks a card |

## Left out

- `createCard`: the card number comes from an external random generator, and the rest is field copying by a generated mapper.
- Controllers, the exception-to-HTTP mapping, JWT handling and the user service: routing, role annotations, token signing and password hashing are not card logic. The admin-only restriction on listing all cards and on status changes is therefore not modelled.
- `@Transactional` atomicity, locking and concurrent requests: each operation is one atomic step on the map.
- Null arguments, null fields and the null dereference errors they would raise: every card has a status and a balance.
- Exception messages: an error keeps only the card number or status that its message mentions. The two "not found" texts for source and destination are not distinguished beyond the number.
- `expirationDate`: it is stored and returned in the view, but no operation consults it.
- `BigDecimal` scale: amounts are integers at one fixed scale. Amounts finer than that scale are not represented.
- Duplicate card numbers: nothing in the table or in `createCard` prevents two cards from sharing a number. `findByNumber` then fails with a non-unique-result error. A map keyed by number cannot hold such a table, so that error is not modelled.
- Persistence failures inside the repository (`SQLException`): the table is total and always available.
