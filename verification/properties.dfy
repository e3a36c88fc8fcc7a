/** What one call of a view or of the user hook does to the store, and which
    invariants of the store it keeps. */
module Properties {
  import opened Wrappers
  import opened Models
  import opened Store
  import opened Invariants
  import opened Signals
  import opened Views

  /** Both rows of a transfer carry the same `reference_id`. With a non-null
      reference the second insert always violates the uniqueness constraint
      that the first insert just made binding, so the atomic block rolls back:
      a transfer with a reference never commits. */
  lemma ReferencedTransferNeverSent(
    l: Ledger, sender: UserId, receiver: UserId, amount: Cents,
    reference: Option<string>, senderName: string, receiverName: string)
    requires reference.Some?
    ensures Transfer(l, sender, receiver, amount, reference, senderName, receiverName).outcome != Sent
    ensures
      && !HasReference(l.log, reference)
      && sender in l.wallets && receiver in l.wallets
      && amount <= l.wallets[sender]
      && FitsDecimal(l.wallets[sender] - amount)
      && FitsDecimal(l.wallets[receiver] + amount)
      && RowFits(amount, DebitDescription(receiverName), reference)
      && RowFits(amount, CreditDescription(senderName), reference)
      ==> Transfer(l, sender, receiver, amount, reference, senderName, receiverName)
          == Reply(RolledBack(IntegrityError), l)
  {
    var r := Transfer(l, sender, receiver, amount, reference, senderName, receiverName);
    if r.outcome == Sent {
      var rows := TransferRows(l.log, sender, receiver, amount, reference, senderName, receiverName);
      var l1 := SaveBalance(l, sender, l.wallets[sender] - amount).value;
      var l2 := Insert(l1, sender, amount, Debit, DebitDescription(receiverName), reference).value;
      assert l2.log[|l.log|] == rows[0];
      assert HasReference(l2.log, reference);
      assert false;
    }
  }

  /** A transfer without a reference does commit when no row has a null
      reference yet, both wallets exist, the sender can pay and every value
      fits its column. */
  lemma UnreferencedTransferCommits(
    l: Ledger, sender: UserId, receiver: UserId, amount: Cents,
    senderName: string, receiverName: string)
    requires !HasReference(l.log, None)
    requires sender in l.wallets && receiver in l.wallets
    requires amount <= l.wallets[sender]
    requires FitsDecimal(l.wallets[sender] - amount) && FitsDecimal(l.wallets[receiver] + amount)
    requires RowFits(amount, DebitDescription(receiverName), None)
    requires RowFits(amount, CreditDescription(senderName), None)
    ensures Transfer(l, sender, receiver, amount, None, senderName, receiverName).outcome == Sent
  {
  }

  /** The pre-check reads a missing reference as IS NULL: any row with a null
      reference suppresses every transfer that carries none. */
  lemma NullReferenceSuppressed(
    l: Ledger, sender: UserId, receiver: UserId, amount: Cents,
    senderName: string, receiverName: string, i: nat)
    requires i < |l.log| && l.log[i].reference.None?
    ensures Transfer(l, sender, receiver, amount, None, senderName, receiverName) == Reply(AlreadyProcessed, l)
  {
  }

  /** A deposit records a credit row with a null reference, so after any
      successful deposit no transfer without a reference can happen again. */
  lemma DepositBlocksUnreferencedTransfers(
    l: Ledger, user: UserId, deposit: Cents,
    sender: UserId, receiver: UserId, amount: Cents, senderName: string, receiverName: string)
    requires AddMoney(l, user, deposit).outcome == Added
    ensures var l' := AddMoney(l, user, deposit).after;
      Transfer(l', sender, receiver, amount, None, senderName, receiverName) == Reply(AlreadyProcessed, l')
  {
    var l' := AddMoney(l, user, deposit).after;
    assert l'.log[|l.log|].reference == None;
    assert HasReference(l'.log, None);
  }

  /** The sufficiency check: a sender holding less than `amount` changes nothing. */
  lemma InsufficientBalanceChangesNothing(
    l: Ledger, sender: UserId, receiver: UserId, amount: Cents,
    reference: Option<string>, senderName: string, receiverName: string)
    requires !HasReference(l.log, reference)
    requires sender in l.wallets && receiver in l.wallets
    requires l.wallets[sender] < amount
    ensures Transfer(l, sender, receiver, amount, reference, senderName, receiverName)
            == Reply(InsufficientBalance, l)
  {
  }

  /** A committed transfer between two distinct wallets moves exactly `amount`
      from the sender to the receiver, leaves the sender non-negative and
      every other wallet alone, and so conserves the total of all balances. */
  lemma CommittedTransferMovesMoney(
    l: Ledger, sender: UserId, receiver: UserId, amount: Cents,
    reference: Option<string>, senderName: string, receiverName: string)
    requires sender != receiver
    requires Transfer(l, sender, receiver, amount, reference, senderName, receiverName).outcome == Sent
    ensures var l' := Transfer(l, sender, receiver, amount, reference, senderName, receiverName).after;
      && l'.wallets[sender] == l.wallets[sender] - amount >= 0
      && l'.wallets[receiver] == l.wallets[receiver] + amount
      && (forall v :: v in l.wallets && v != sender && v != receiver ==> l'.wallets[v] == l.wallets[v])
      && Total(l'.wallets) == Total(l.wallets)
  {
    var l' := Transfer(l, sender, receiver, amount, reference, senderName, receiverName).after;
    var m1 := l.wallets[sender := l.wallets[sender] - amount];
    assert l'.wallets == m1[receiver := l.wallets[receiver] + amount];
    TotalUpdate(l.wallets, sender, l.wallets[sender] - amount);
    TotalUpdate(m1, receiver, l.wallets[receiver] + amount);
  }

  /** Self-transfer: the receiver's wallet is a second copy read before the
      sender's save, so its save overwrites the debit with the old balance
      plus `amount`. The log nets to zero for that wallet, so a committed
      self-transfer of a non-zero amount breaks ledger consistency. */
  lemma SelfTransferCreatesMoney(
    l: Ledger, user: UserId, amount: Cents,
    reference: Option<string>, senderName: string, receiverName: string)
    requires Transfer(l, user, user, amount, reference, senderName, receiverName).outcome == Sent
    ensures var l' := Transfer(l, user, user, amount, reference, senderName, receiverName).after;
      && l'.wallets[user] == l.wallets[user] + amount
      && Net(l'.log, user) == Net(l.log, user)
      && (Consistent(l) && amount != 0 ==> !Consistent(l'))
  {
    var l' := Transfer(l, user, user, amount, reference, senderName, receiverName).after;
    var rows := TransferRows(l.log, user, user, amount, reference, senderName, receiverName);
    NetAppend(l.log, rows[0], user);
    NetAppend(l.log + [rows[0]], rows[1], user);
    assert l'.log == (l.log + [rows[0]]) + [rows[1]];
  }

  /** Ledger consistency is kept by every transfer between distinct wallets. */
  lemma TransferPreservesConsistency(
    l: Ledger, sender: UserId, receiver: UserId, amount: Cents,
    reference: Option<string>, senderName: string, receiverName: string)
    requires Consistent(l)
    requires sender != receiver
    ensures Consistent(Transfer(l, sender, receiver, amount, reference, senderName, receiverName).after)
  {
    var r := Transfer(l, sender, receiver, amount, reference, senderName, receiverName);
    if r.outcome == Sent {
      var rows := TransferRows(l.log, sender, receiver, amount, reference, senderName, receiverName);
      assert r.after.log == (l.log + [rows[0]]) + [rows[1]];
      forall u | u in r.after.wallets
        ensures r.after.wallets[u] == Net(r.after.log, u)
      {
        NetAppend(l.log, rows[0], u);
        NetAppend(l.log + [rows[0]], rows[1], u);
      }
    }
  }

  /** With a non-negative amount no transfer makes a balance negative. */
  lemma TransferPreservesNonNegative(
    l: Ledger, sender: UserId, receiver: UserId, amount: Cents,
    reference: Option<string>, senderName: string, receiverName: string)
    requires NonNegative(l)
    requires amount >= 0
    ensures NonNegative(Transfer(l, sender, receiver, amount, reference, senderName, receiverName).after)
  {
  }

  /** The schema invariants survive every transfer. */
  lemma TransferPreservesValid(
    l: Ledger, sender: UserId, receiver: UserId, amount: Cents,
    reference: Option<string>, senderName: string, receiverName: string)
    requires Valid(l)
    ensures Valid(Transfer(l, sender, receiver, amount, reference, senderName, receiverName).after)
  {
  }

  /** A deposit that does not complete leaves the store as it was whenever
      the amount fits DECIMAL(10, 2): the credit row can then only be refused
      when the balance save was refused first. */
  lemma DepositFailureChangesNothing(l: Ledger, user: UserId, amount: Cents)
    requires FitsDecimal(amount)
    ensures AddMoney(l, user, amount).outcome.Failed? ==> AddMoney(l, user, amount).after == l
  {
  }

  /** Otherwise the balance save can commit while the credit row is refused:
      a balance of 90000000.00 plus a deposit of -100000000.00 is stored as
      -10000000.00 with no row recording it. */
  lemma DepositCanCommitWithoutRecord()
    ensures var l := Ledger(map[7 := 9_000_000_000], []);
      AddMoney(l, 7, -10_000_000_000) == Reply(Failed(DataError), Ledger(map[7 := -1_000_000_000], []))
  {
    DecimalBoundValue();
  }

  /** A deposit of any amount that fits its column, of either sign, keeps
      every balance equal to its credits minus its debits. */
  lemma DepositPreservesConsistency(l: Ledger, user: UserId, amount: Cents)
    requires Consistent(l)
    requires FitsDecimal(amount)
    ensures Consistent(AddMoney(l, user, amount).after)
  {
  }

  /** A deposit of a non-negative amount keeps every balance non-negative,
      whether it completes, fails, or saves the balance without a row. */
  lemma DepositPreservesNonNegative(l: Ledger, user: UserId, amount: Cents)
    requires NonNegative(l)
    requires amount >= 0
    ensures NonNegative(AddMoney(l, user, amount).after)
  {
  }

  /** The schema invariants survive every deposit: a balance is only saved
      once it fits its column, and a row only once it fits its columns, so
      even a deposit that saves the balance without a row keeps them. */
  lemma DepositPreservesValid(l: Ledger, user: UserId, amount: Cents)
    requires Valid(l)
    ensures Valid(AddMoney(l, user, amount).after)
  {
  }

  /** The hook keeps every invariant: the new wallet starts at zero and, by
      the foreign key, no row of the log belongs to it yet. */
  lemma CreateWalletPreservesInvariants(l: Ledger, user: UserId, created: bool)
    requires Valid(l) && Consistent(l) && NonNegative(l)
    ensures CreateWalletForNewUser(l, user, created).Success? ==>
      var l' := CreateWalletForNewUser(l, user, created).value;
      Valid(l') && Consistent(l') && NonNegative(l')
  {
    var r := CreateWalletForNewUser(l, user, created);
    if r.Success? && created {
      NetOfStranger(l.log, user);
    }
  }
}
