/** An independent statement of the transfer's error order: the checks of
    `transferFunds` as a list, where the first failing check names the
    error. The code is shown to agree with the list on every input. */
module TransferCheckList {
  import opened Wrappers
  import opened CardModel
  import opened CardRepository
  import opened CardService

  /** One validation step: whether it passes, and the error it raises if not. */
  datatype Check = Check(passes: bool, error: Error)

  /** The error of the first check that fails, or None when all pass. */
  function FirstFailure(checks: seq<Check>): (r: Option<Error>)
    ensures r == None <==> forall i :: 0 <= i < |checks| ==> checks[i].passes
    ensures r.Some? ==>
      exists i :: && 0 <= i < |checks| && !checks[i].passes && checks[i].error == r.value
                  && forall j :: 0 <= j < i ==> checks[j].passes
  {
    if checks == [] then None
    else if !checks[0].passes then Some(checks[0].error)
    else FirstFailure(checks[1..])
  }

  /** The checks made once both cards are found, in the code's order. */
  function CardChecks(caller: string, amount: int, fromCard: Card, toCard: Card): seq<Check> {
    [ Check(amount > 0, InvalidRequest(NonPositiveAmount)),
      Check(fromCard.status == Active, StatusViolation(fromCard.status)),
      Check(toCard.status == Active, StatusViolation(toCard.status)),
      Check(fromCard.userEmail == caller, Forbidden),
      Check(fromCard.amount >= amount, InsufficientFunds(fromCard.number)) ]
  }

  /** All checks of a transfer in the code's order; the checks on the cards
      are reached only when both lookups succeed. */
  function TransferChecks(s: Store, caller: string, from: string, to: string, amount: int): seq<Check> {
    [ Check(from != to, InvalidRequest(SameCard)),
      Check(from in s, NotFound(from)),
      Check(to in s, NotFound(to)) ]
    + (if from in s && to in s then CardChecks(caller, amount, s[from], s[to]) else [])
  }

  /** The first failure of a concatenation is the first failure of its front
      part, or else of its back part. */
  lemma {:induction false} FirstFailureAppend(a: seq<Check>, b: seq<Check>)
    ensures FirstFailure(a + b) == if FirstFailure(a).Some? then FirstFailure(a) else FirstFailure(b)
  {
    if a != [] {
      assert (a + b)[0] == a[0];
      assert (a + b)[1..] == a[1..] + b;
      FirstFailureAppend(a[1..], b);
    } else {
      assert a + b == b;
    }
  }

  /** `validateCards` raises exactly the first failing card check. */
  lemma ValidateCardsFollowsChecks(caller: string, amount: int, fromCard: Card, toCard: Card)
    ensures ValidateCards(caller, amount, fromCard, toCard) == FirstFailure(CardChecks(caller, amount, fromCard, toCard))
  {
    var c := CardChecks(caller, amount, fromCard, toCard);
    var c1 := c[1..];
    var c2 := c1[1..];
    var c3 := c2[1..];
    var c4 := c3[1..];
    assert c4[1..] == [];
    assert FirstFailure(c4) == if !c4[0].passes then Some(c4[0].error) else None;
    assert FirstFailure(c3) == if !c3[0].passes then Some(c3[0].error) else FirstFailure(c4);
    assert FirstFailure(c2) == if !c2[0].passes then Some(c2[0].error) else FirstFailure(c3);
    assert FirstFailure(c1) == if !c1[0].passes then Some(c1[0].error) else FirstFailure(c2);
    assert FirstFailure(c) == if !c[0].passes then Some(c[0].error) else FirstFailure(c1);
  }

  /** `transferFunds` succeeds exactly when every check passes, and otherwise
      raises the error of the first check that fails. */
  lemma TransferFollowsChecks(s: Store, caller: string, from: string, to: string, amount: int)
    ensures var r := Transfer(s, caller, from, to, amount);
      var f := FirstFailure(TransferChecks(s, caller, from, to, amount));
      && (r.Ok? <==> f == None)
      && (r.Err? ==> f == Some(r.error))
  {
    var front := [ Check(from != to, InvalidRequest(SameCard)),
                   Check(from in s, NotFound(from)),
                   Check(to in s, NotFound(to)) ];
    var back := if from in s && to in s then CardChecks(caller, amount, s[from], s[to]) else [];
    FirstFailureAppend(front, back);
    var f1 := front[1..];
    var f2 := f1[1..];
    assert f2[1..] == [];
    assert FirstFailure(f2) == if !f2[0].passes then Some(f2[0].error) else None;
    assert FirstFailure(f1) == if !f1[0].passes then Some(f1[0].error) else FirstFailure(f2);
    assert FirstFailure(front) == if !front[0].passes then Some(front[0].error) else FirstFailure(f1);
    assert TransferChecks(s, caller, from, to, amount) == front + back;
    if from in s && to in s {
      ValidateCardsFollowsChecks(caller, amount, s[from], s[to]);
    }
  }
}
