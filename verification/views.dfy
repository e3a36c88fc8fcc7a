/** The money-moving views (`transfer_money`, `add_money`) and the history
    query of `wallet_home` and `transactions_api`, with the request plumbing
    stripped: each view is a transition from the store before to the store
    after, together with what the caller is told. */
module Views {
  import opened Wrappers
  import opened Models
  import opened Store
  import opened Invariants

  /** What `transfer_money` ends with on a POST. */
  datatype TransferOutcome =
    | AlreadyProcessed           // the reference pre-check matched: redirect, nothing done
    | InsufficientBalance        // the error page: nothing written
    | Sent                       // the atomic block committed
    | RolledBack(error: StoreError)  // an exception left the atomic block

  /** What `add_money` ends with on a POST. */
  datatype DepositOutcome = Added | Failed(error: StoreError)

  /** A view's outcome and the store it leaves behind. */
  datatype Reply<O> = Reply(outcome: O, after: Ledger)

  function DebitDescription(receiverName: string): string {
    "Sent to " + receiverName
  }

  function CreditDescription(senderName: string): string {
    "Received from " + senderName
  }

  const DepositDescription: string := "Money added to wallet"

  /** The debit row and the credit row a committed transfer appends, stamped
      with the next two timestamps of `log`. */
  function TransferRows(log: seq<Txn>, sender: UserId, receiver: UserId, amount: Cents,
                        reference: Option<string>, senderName: string, receiverName: string): seq<Txn>
  {
    [ Txn(sender, amount, Debit, |log|, DebitDescription(receiverName), reference),
      Txn(receiver, amount, Credit, |log| + 1, CreditDescription(senderName), reference) ]
  }

  /** The body of the `transaction.atomic()` block. Both wallets are read
      before either is saved, so the receiver's new balance is computed from
      the balance read at the start even when the receiver is the sender. */
  function TransferBlock(l: Ledger, sender: UserId, receiver: UserId, amount: Cents,
                         reference: Option<string>, senderName: string, receiverName: string)
    : Result<Reply<TransferOutcome>, StoreError>
  {
    var senderBalance :- GetBalance(l, sender);
    var receiverBalance :- GetBalance(l, receiver);
    if senderBalance < amount then
      Success(Reply(InsufficientBalance, l))
    else
      var l1 :- SaveBalance(l, sender, senderBalance - amount);
      var l2 :- Insert(l1, sender, amount, Debit, DebitDescription(receiverName), reference);
      var l3 :- SaveBalance(l2, receiver, receiverBalance + amount);
      var l4 :- Insert(l3, receiver, amount, Credit, CreditDescription(senderName), reference);
      Success(Reply(Sent, l4))
  }

  /** `transfer_money` on a POST. The reference pre-check runs first; then the
      atomic block either commits all of its writes or, when an exception
      escapes it, none of them. */
  function Transfer(l: Ledger, sender: UserId, receiver: UserId, amount: Cents,
                    reference: Option<string>, senderName: string, receiverName: string)
    : (r: Reply<TransferOutcome>)
    ensures HasReference(l.log, reference) ==> r == Reply(AlreadyProcessed, l)
    ensures r.outcome == AlreadyProcessed <==> HasReference(l.log, reference)
    ensures r.outcome == InsufficientBalance <==>
      && !HasReference(l.log, reference)
      && sender in l.wallets && receiver in l.wallets
      && l.wallets[sender] < amount
    ensures r.outcome == RolledBack(DoesNotExist) <==>
      !HasReference(l.log, reference) && (sender !in l.wallets || receiver !in l.wallets)
    ensures r.outcome != Sent ==> r.after == l
    ensures r.outcome == Sent ==>
      && sender in l.wallets && receiver in l.wallets
      && amount <= l.wallets[sender]
      && r.after.wallets.Keys == l.wallets.Keys
      && r.after.wallets[receiver] == l.wallets[receiver] + amount
      && (sender != receiver ==> r.after.wallets[sender] == l.wallets[sender] - amount)
      && (forall v :: v in l.wallets && v != sender && v != receiver ==> r.after.wallets[v] == l.wallets[v])
      && r.after.log == l.log + TransferRows(l.log, sender, receiver, amount, reference, senderName, receiverName)
  {
    if HasReference(l.log, reference) then Reply(AlreadyProcessed, l)
    else
      match TransferBlock(l, sender, receiver, amount, reference, senderName, receiverName)
      case Failure(e) => Reply(RolledBack(e), l)
      case Success(reply) => reply
  }

  /** `add_money` on a POST. There is no atomic block: the balance update is
      committed on its own before the credit row is inserted. */
  function AddMoney(l: Ledger, user: UserId, amount: Cents): (r: Reply<DepositOutcome>)
    ensures user !in l.wallets ==> r == Reply(Failed(DoesNotExist), l)
    ensures r.outcome == Added <==>
      user in l.wallets && FitsDecimal(l.wallets[user] + amount) && FitsDecimal(amount)
    ensures r.outcome.Failed? ==>
      || r.after == l
      || (&& user in l.wallets
          && !FitsDecimal(amount)
          && FitsDecimal(l.wallets[user] + amount)
          && r.after.wallets == l.wallets[user := l.wallets[user] + amount]
          && r.after.log == l.log)
    ensures r.outcome == Added ==>
      && user in l.wallets
      && r.after.wallets == l.wallets[user := l.wallets[user] + amount]
      && r.after.log == l.log + [Txn(user, amount, Credit, |l.log|, DepositDescription, None)]
    ensures user in l.wallets && FitsDecimal(l.wallets[user] + amount) && !FitsDecimal(amount) ==>
      r == Reply(Failed(DataError), l.(wallets := l.wallets[user := l.wallets[user] + amount]))
    ensures r.outcome.Failed? ==>
      && r.after.log == l.log
      && r.after.wallets.Keys == l.wallets.Keys
      && forall v :: v in l.wallets && v != user ==> r.after.wallets[v] == l.wallets[v]
  {
    match GetBalance(l, user)
    case Failure(e) => Reply(Failed(e), l)
    case Success(balance) =>
      match SaveBalance(l, user, balance + amount)
      case Failure(e) => Reply(Failed(e), l)
      case Success(l1) =>
        match Insert(l1, user, amount, Credit, DepositDescription, None)
        case Failure(e) => Reply(Failed(e), l1)
        case Success(l2) => Reply(Added, l2)
  }

  /** Transactions listed newest first: strictly decreasing timestamps. */
  predicate NewestFirst(h: seq<Txn>) {
    forall i, j :: 0 <= i < j < |h| ==> h[i].timestamp > h[j].timestamp
  }

  /** `Transaction.objects.filter(wallet=wallet).order_by('-timestamp')`,
      after `Wallet.objects.get(user=user)`. The log is walked oldest first and
      each row of the wallet is put in front of those already collected. */
  method TransactionHistory(l: Ledger, user: UserId) returns (r: Result<seq<Txn>, StoreError>)
    ensures r.Failure? <==> user !in l.wallets
    ensures r.Failure? ==> r.error == DoesNotExist
    ensures r.Success? ==> forall t :: t in r.value <==> t in l.log && t.wallet == user
    ensures r.Success? && WellTimed(l.log) ==> NewestFirst(r.value)
  {
    if user !in l.wallets {
      return Failure(DoesNotExist);
    }
    var h: seq<Txn> := [];
    var i := 0;
    while i < |l.log|
      invariant 0 <= i <= |l.log|
      invariant forall t :: t in h <==> t in l.log[..i] && t.wallet == user
      invariant WellTimed(l.log) ==> NewestFirst(h)
      invariant WellTimed(l.log) ==> forall k :: 0 <= k < |h| ==> h[k].timestamp < i
    {
      assert l.log[..i + 1] == l.log[..i] + [l.log[i]];
      if l.log[i].wallet == user {
        h := [l.log[i]] + h;
      }
      i := i + 1;
    }
    assert l.log[..i] == l.log;
    return Success(h);
  }
}
