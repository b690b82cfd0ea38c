/** The card operations of org.example.service.CardService: transfers between
    two cards, deleting and re-statusing a card, and listing cards. Each
    operation takes the table and the caller's email and returns either the
    new table with the reply, or the error the Java code throws; a failed
    operation leaves the table as it was. */
module CardService {
  import opened Wrappers
  import opened CardModel
  import opened CardRepository

  /** Why a request was rejected as malformed. */
  datatype Invalid = SameCard | NonPositiveAmount

  /** The errors the operations raise, one constructor per kind of failure. */
  datatype Error =
    | InvalidRequest(reason: Invalid)    // IllegalArgumentException
    | InsufficientFunds(number: string)  // IllegalArgumentException
    | NotFound(number: string)           // EntityNotFoundException
    | StatusViolation(status: Status)    // SecurityException
    | Forbidden                          // SecurityException
    | OwnerCheckFailed                   // SqlScriptException

  /** The Java exception class behind each error. */
  datatype ExceptionClass = IllegalArgument | EntityNotFound | Security | SqlScript

  function ClassOf(e: Error): ExceptionClass {
    match e
    case InvalidRequest(_) => IllegalArgument
    case InsufficientFunds(_) => IllegalArgument
    case NotFound(_) => EntityNotFound
    case StatusViolation(_) => Security
    case Forbidden => Security
    case OwnerCheckFailed => SqlScript
  }

  /** The string the mutating operations return when they succeed. */
  const SuccessReply: string := "Success"

  /** The table the caller observes after an operation: the new one on
      success, the old one when the operation threw. */
  function StoreAfter<T>(s: Store, r: Result<(Store, T), Error>): Store {
    if r.Ok? then r.value.0 else s
  }

  /** `s'` has the same cards as `s` except possibly under the numbers in `changed`. */
  predicate AgreeOutside(s: Store, s': Store, changed: set<string>) {
    && s'.Keys == s.Keys
    && forall k :: k in s && k !in changed ==> s'[k] == s[k]
  }

  /** Every condition a transfer must meet, stated without any order. */
  predicate TransferAllowed(s: Store, caller: string, from: string, to: string, amount: int) {
    && from != to
    && from in s && to in s
    && amount > 0
    && s[from].status == Active && s[to].status == Active
    && s[from].userEmail == caller
    && s[from].amount >= amount
  }

  /** `validateStatus`: a blocked or expired card may take part in no transfer. */
  function ValidateStatus(c: Card): (r: Option<Error>)
    ensures r == None <==> c.status.Active?
    ensures r.Some? ==> r.value == StatusViolation(c.status)
  {
    if c.status == Blocked || c.status == Expired then Some(StatusViolation(c.status)) else None
  }

  /** `validateCards`: the checks made once both cards are found, in the
      code's order: amount, source status, destination status, ownership of
      the source, funds on the source. */
  function ValidateCards(caller: string, amount: int, fromCard: Card, toCard: Card): (r: Option<Error>)
    ensures r == None <==>
      && amount > 0
      && fromCard.status == Active && toCard.status == Active
      && fromCard.userEmail == caller
      && fromCard.amount >= amount
  {
    if amount <= 0 then Some(InvalidRequest(NonPositiveAmount))
    else if ValidateStatus(fromCard).Some? then ValidateStatus(fromCard)
    else if ValidateStatus(toCard).Some? then ValidateStatus(toCard)
    else if caller != fromCard.userEmail then Some(Forbidden)
    else if fromCard.amount < amount then Some(InsufficientFunds(fromCard.number))
    else None
  }

  /** `transferFunds`: moves `amount` from card `from` to card `to` on behalf
      of `caller`. On success exactly the two balances change, by the amount,
      and their sum is kept. */
  function Transfer(s: Store, caller: string, from: string, to: string, amount: int): (r: Result<(Store, string), Error>)
    ensures r.Ok? <==> TransferAllowed(s, caller, from, to, amount)
    ensures r.Ok? ==>
      var (s', reply) := r.value;
      && reply == SuccessReply
      && AgreeOutside(s, s', {from, to})
      && OnlyAmountChanged(s[from], s'[from])
      && OnlyAmountChanged(s[to], s'[to])
      && s'[from].amount == s[from].amount - amount
      && s'[to].amount == s[to].amount + amount
      && s'[from].amount + s'[to].amount == s[from].amount + s[to].amount
      && s'[from].amount >= 0
  {
    if from == to then Err(InvalidRequest(SameCard))
    else match FindByNumber(s, from)
    case None => Err(NotFound(from))
    case Some(fromCard) =>
      match FindByNumber(s, to)
      case None => Err(NotFound(to))
      case Some(toCard) =>
        match ValidateCards(caller, amount, fromCard, toCard)
        case Some(e) => Err(e)
        case None =>
          var debited := fromCard.(amount := fromCard.amount - amount);
          var credited := toCard.(amount := toCard.amount + amount);
          Ok((s[from := debited][to := credited], SuccessReply))
  }

  /** `deleteUserCard`: the owner of card `number` removes it from the table. */
  function DeleteUserCard(s: Store, caller: string, number: string): (r: Result<(Store, string), Error>)
    ensures r == Err(NotFound(number)) <==> number !in s
    ensures r == Err(Forbidden) <==> number in s && s[number].userEmail != caller
    ensures r.Ok? <==> number in s && s[number].userEmail == caller
    ensures r.Ok? ==>
      var (s', reply) := r.value;
      && reply == SuccessReply
      && s'.Keys == s.Keys - {number}
      && forall k :: k in s' ==> s'[k] == s[k]
  {
    match FindByNumber(s, number)
    case None => Err(NotFound(number))
    case Some(card) =>
      if caller != card.userEmail then Err(Forbidden)
      else Ok((s - {number}, SuccessReply))
  }

  /** `updateCardStatus`: the owner of card `number` sets its status and gets
      back the saved card. The owner check fails with the storage-layer
      exception the code throws there, not with a security error. */
  function UpdateCardStatus(s: Store, caller: string, status: Status, number: string): (r: Result<(Store, CardDto), Error>)
    ensures r == Err(NotFound(number)) <==> number !in s
    ensures r == Err(OwnerCheckFailed) <==> number in s && s[number].userEmail != caller
    ensures r.Ok? <==> number in s && s[number].userEmail == caller
    ensures r.Ok? ==>
      var (s', dto) := r.value;
      && AgreeOutside(s, s', {number})
      && OnlyStatusChanged(s[number], s'[number])
      && s'[number].status == status
      && dto == ToDto(s'[number])
  {
    match FindByNumber(s, number)
    case None => Err(NotFound(number))
    case Some(card) =>
      if caller != card.userEmail then Err(OwnerCheckFailed)
      else
        var saved := card.(status := status);
        Ok((s[number := saved], ToDto(saved)))
  }

  /** `getUserCards`: the view of every card owned by `email`, each once.
      `keys` gives the number under which each view's card is stored. */
  method GetUserCards(s: Store, email: string) returns (keys: seq<string>, r: seq<CardDto>)
    ensures Enumerates(keys, OwnedKeys(s, email))
    ensures |r| == |keys| == |OwnedKeys(s, email)|
    ensures forall i :: 0 <= i < |r| ==> keys[i] in s && r[i] == ToDto(s[keys[i]])
    ensures forall i :: 0 <= i < |r| ==> exists k :: k in s && s[k].userEmail == email && r[i] == ToDto(s[k])
    ensures forall k :: k in s && s[k].userEmail == email ==> ToDto(s[k]) in r
  {
    var cards;
    keys, cards := FindByUserEmail(s, email);
    r := seq(|cards|, i requires 0 <= i < |cards| => ToDto(cards[i]));
    forall k | k in s && s[k].userEmail == email
      ensures ToDto(s[k]) in r
    {
      assert k in OwnedKeys(s, email);
      var j :| 0 <= j < |keys| && keys[j] == k;
      assert r[j] == ToDto(s[k]);
    }
  }

  /** `getAllCards`: the view of every card in the table, each once.
      `keys` gives the number under which each view's card is stored. */
  method GetAllCards(s: Store) returns (keys: seq<string>, r: seq<CardDto>)
    ensures Enumerates(keys, s.Keys)
    ensures |r| == |keys| == |s|
    ensures forall i :: 0 <= i < |r| ==> keys[i] in s && r[i] == ToDto(s[keys[i]])
    ensures forall i :: 0 <= i < |r| ==> exists k :: k in s && r[i] == ToDto(s[k])
    ensures forall k :: k in s ==> ToDto(s[k]) in r
  {
    var cards;
    keys, cards := FindAll(s);
    r := seq(|cards|, i requires 0 <= i < |cards| => ToDto(cards[i]));
    forall k | k in s
      ensures ToDto(s[k]) in r
    {
      var j :| 0 <= j < |keys| && keys[j] == k;
      assert r[j] == ToDto(s[k]);
    }
  }
}
