/** The transfer as its comments describe it: a reference makes a retried
    request harmless, a request without one is not guarded at all, and a
    self-transfer moves nothing. Three changes against `Views.Transfer`:
    the uniqueness constraint covers (reference, kind) so that the debit and
    the credit row of one transfer may share a reference; the pre-check runs
    only for a non-null reference; the receiver's balance is read after the
    sender's save. */
module Corrected {
  import opened Wrappers
  import opened Models
  import opened Store
  import opened Invariants
  import opened Views

  /** A row of this kind already carries this non-null reference. */
  predicate HasKeyedReference(log: seq<Txn>, reference: Option<string>, kind: Kind) {
    exists i :: 0 <= i < |log| && log[i].reference == reference && log[i].kind == kind
  }

  /** For each non-null reference at most one debit row and one credit row. */
  predicate KeyedReferencesUnique(log: seq<Txn>) {
    forall i, j :: 0 <= i < j < |log| && log[i].reference.Some? && log[i].reference == log[j].reference
      ==> log[i].kind != log[j].kind
  }

  /** `Insert` under a UNIQUE(reference_id, transaction_type) constraint. */
  function InsertKeyed(l: Ledger, wallet: UserId, amount: Cents, kind: Kind,
                       description: string, reference: Option<string>): (r: Result<Ledger, StoreError>)
    requires wallet in l.wallets
    ensures r.Success? <==>
      RowFits(amount, description, reference) && !(reference.Some? && HasKeyedReference(l.log, reference, kind))
    ensures r.Success? ==>
      && r.value.wallets == l.wallets
      && r.value.log == l.log + [Txn(wallet, amount, kind, |l.log|, description, reference)]
    ensures r.Success? && KeyedReferencesUnique(l.log) ==> KeyedReferencesUnique(r.value.log)
  {
    if !RowFits(amount, description, reference) then Failure(DataError)
    else if reference.Some? && HasKeyedReference(l.log, reference, kind) then Failure(IntegrityError)
    else Success(l.(log := l.log + [Txn(wallet, amount, kind, |l.log|, description, reference)]))
  }

  function TransferBlock(l: Ledger, sender: UserId, receiver: UserId, amount: Cents,
                         reference: Option<string>, senderName: string, receiverName: string)
    : Result<Reply<TransferOutcome>, StoreError>
  {
    var senderBalance :- GetBalance(l, sender);
    var _ :- GetBalance(l, receiver);
    if senderBalance < amount then
      Success(Reply(InsufficientBalance, l))
    else
      var l1 :- SaveBalance(l, sender, senderBalance - amount);
      var l2 :- InsertKeyed(l1, sender, amount, Debit, DebitDescription(receiverName), reference);
      var receiverBalance :- GetBalance(l2, receiver);
      var l3 :- SaveBalance(l2, receiver, receiverBalance + amount);
      var l4 :- InsertKeyed(l3, receiver, amount, Credit, CreditDescription(senderName), reference);
      Success(Reply(Sent, l4))
  }

  function Transfer(l: Ledger, sender: UserId, receiver: UserId, amount: Cents,
                    reference: Option<string>, senderName: string, receiverName: string)
    : (r: Reply<TransferOutcome>)
    ensures reference.Some? && HasReference(l.log, reference) ==> r == Reply(AlreadyProcessed, l)
    ensures r.outcome != Sent ==> r.after == l
    ensures r.outcome == Sent ==>
      && sender in l.wallets && receiver in l.wallets
      && amount <= l.wallets[sender]
      && r.after.wallets.Keys == l.wallets.Keys
      && (sender != receiver ==>
            && r.after.wallets[sender] == l.wallets[sender] - amount
            && r.after.wallets[receiver] == l.wallets[receiver] + amount)
      && (sender == receiver ==> r.after.wallets == l.wallets)
      && (forall v :: v in l.wallets && v != sender && v != receiver ==> r.after.wallets[v] == l.wallets[v])
      && r.after.log == l.log + TransferRows(l.log, sender, receiver, amount, reference, senderName, receiverName)
  {
    if reference.Some? && HasReference(l.log, reference) then Reply(AlreadyProcessed, l)
    else
      match TransferBlock(l, sender, receiver, amount, reference, senderName, receiverName)
      case Failure(e) => Reply(RolledBack(e), l)
      case Success(reply) => reply
  }

  /** A request whose reference is fresh (or absent) commits whenever the
      wallets exist, the sender can pay and the values fit their columns;
      a self-transfer included, which then leaves its balance unchanged. */
  lemma FreshTransferCommits(
    l: Ledger, sender: UserId, receiver: UserId, amount: Cents,
    reference: Option<string>, senderName: string, receiverName: string)
    requires reference.Some? ==> !HasReference(l.log, reference)
    requires sender in l.wallets && receiver in l.wallets
    requires amount <= l.wallets[sender]
    requires FitsDecimal(l.wallets[sender] - amount) && FitsDecimal(l.wallets[receiver] + amount)
    requires RowFits(amount, DebitDescription(receiverName), reference)
    requires RowFits(amount, CreditDescription(senderName), reference)
    ensures Transfer(l, sender, receiver, amount, reference, senderName, receiverName).outcome == Sent
  {
  }

  /** Idempotence: repeating a committed request with the same reference is
      suppressed and changes nothing. */
  lemma RetryIsAlreadyProcessed(
    l: Ledger, sender: UserId, receiver: UserId, amount: Cents,
    reference: Option<string>, senderName: string, receiverName: string)
    requires reference.Some?
    requires Transfer(l, sender, receiver, amount, reference, senderName, receiverName).outcome == Sent
    ensures var l' := Transfer(l, sender, receiver, amount, reference, senderName, receiverName).after;
      Transfer(l', sender, receiver, amount, reference, senderName, receiverName) == Reply(AlreadyProcessed, l')
  {
    var l' := Transfer(l, sender, receiver, amount, reference, senderName, receiverName).after;
    assert l'.log[|l.log|].reference == reference;
  }

  /** Every transfer, a self-transfer included, keeps the ledger consistent
      and the total of all balances unchanged. */
  lemma TransferConservesTotal(
    l: Ledger, sender: UserId, receiver: UserId, amount: Cents,
    reference: Option<string>, senderName: string, receiverName: string)
    requires Consistent(l)
    ensures var l' := Transfer(l, sender, receiver, amount, reference, senderName, receiverName).after;
      Consistent(l') && Total(l'.wallets) == Total(l.wallets)
  {
    var r := Transfer(l, sender, receiver, amount, reference, senderName, receiverName);
    if r.outcome == Sent {
      if sender != receiver {
        var m1 := l.wallets[sender := l.wallets[sender] - amount];
        assert r.after.wallets == m1[receiver := l.wallets[receiver] + amount];
        TotalUpdate(l.wallets, sender, m1[sender]);
        TotalUpdate(m1, receiver, l.wallets[receiver] + amount);
      }
      var rows := TransferRows(l.log, sender, receiver, amount, reference, senderName, receiverName);
      assert r.after.log == (l.log + [rows[0]]) + [rows[1]];
      forall u | u in r.after.wallets
        ensures r.after.wallets[u] == Net(r.after.log, u)
      {
        NetAppend(l.log, rows[0], u);
        NetAppend(l.log + [rows[0]], rows[1], u);
      }
    }
  }

  /** The keyed constraint keeps at most one debit and one credit per reference. */
  lemma TransferKeepsKeyedReferencesUnique(
    l: Ledger, sender: UserId, receiver: UserId, amount: Cents,
    reference: Option<string>, senderName: string, receiverName: string)
    requires KeyedReferencesUnique(l.log)
    ensures KeyedReferencesUnique(Transfer(l, sender, receiver, amount, reference, senderName, receiverName).after.log)
  {
  }
}
