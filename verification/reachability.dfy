/** Whole runs of the app: users being saved, deposits and transfers, in any
    order, starting from an empty database. */
module Reachability {
  import opened Wrappers
  import opened Models
  import opened Store
  import opened Invariants
  import opened Signals
  import opened Views
  import opened Properties

  /** One request reaching the core. */
  datatype Event =
    | UserSaved(user: UserId, created: bool)
    | Deposit(depositor: UserId, depositAmount: Cents)
    | TransferRequest(sender: UserId, receiver: UserId, amount: Cents,
                      reference: Option<string>, senderName: string, receiverName: string)

  /** The store after one event; a raised hook exception leaves it as it was. */
  function Apply(l: Ledger, e: Event): Ledger {
    match e
    case UserSaved(u, created) =>
      (match CreateWalletForNewUser(l, u, created)
       case Success(l') => l'
       case Failure(_) => l)
    case Deposit(u, a) => AddMoney(l, u, a).after
    case TransferRequest(s, r, a, ref, sn, rn) => Transfer(l, s, r, a, ref, sn, rn).after
  }

  function Run(l: Ledger, es: seq<Event>): Ledger
    decreases |es|
  {
    if |es| == 0 then l else Run(Apply(l, es[0]), es[1..])
  }

  predicate PositiveAmount(e: Event) {
    match e
    case UserSaved(_, _) => true
    case Deposit(_, a) => a > 0
    case TransferRequest(_, _, a, _, _, _) => a > 0
  }

  /** Until the first row with a null reference exists, every balance is zero. */
  predicate ZeroUntilNullRow(l: Ledger) {
    HasReference(l.log, None) || forall u :: u in l.wallets ==> l.wallets[u] == 0
  }

  /** Everything that holds in every state reachable with positive amounts. */
  predicate Reachable(l: Ledger) {
    Valid(l) && Consistent(l) && NonNegative(l) && ZeroUntilNullRow(l)
  }

  /** In such a state no transfer of a positive amount commits: with a
      reference its paired rows clash, without one it is either suppressed
      by an existing null-reference row or refused by an all-zero balance. */
  lemma NoTransferCommits(
    l: Ledger, sender: UserId, receiver: UserId, amount: Cents,
    reference: Option<string>, senderName: string, receiverName: string)
    requires ZeroUntilNullRow(l)
    requires amount > 0
    ensures Transfer(l, sender, receiver, amount, reference, senderName, receiverName).outcome != Sent
  {
    if reference.Some? {
      ReferencedTransferNeverSent(l, sender, receiver, amount, reference, senderName, receiverName);
    }
  }

  lemma ApplyKeepsReachable(l: Ledger, e: Event)
    requires Reachable(l)
    requires PositiveAmount(e)
    ensures Reachable(Apply(l, e))
  {
    match e
    case UserSaved(u, created) =>
      CreateWalletPreservesInvariants(l, u, created);
    case Deposit(u, a) =>
      DepositPreservesValid(l, u, a);
      DepositPreservesNonNegative(l, u, a);
      var r := AddMoney(l, u, a);
      if FitsDecimal(a) {
        DepositPreservesConsistency(l, u, a);
      } else {
        assert r.after == l;
      }
      if r.outcome == Added {
        assert r.after.log[|l.log|].reference == None;
      }
    case TransferRequest(s, rc, a, ref, sn, rn) =>
      NoTransferCommits(l, s, rc, a, ref, sn, rn);
  }

  lemma {:induction false} RunKeepsReachable(l: Ledger, es: seq<Event>)
    requires Reachable(l)
    requires forall k :: 0 <= k < |es| ==> PositiveAmount(es[k])
    ensures Reachable(Run(l, es))
    decreases |es|
  {
    if |es| > 0 {
      ApplyKeepsReachable(l, es[0]);
      RunKeepsReachable(Apply(l, es[0]), es[1..]);
    }
  }

  /** Every state reached from the empty database with positive amounts has
      consistent, non-negative balances, unique references and well-formed
      rows, and in none of them can a transfer of a positive amount commit. */
  lemma EmptyStoreRuns(es: seq<Event>, transfer: Event)
    requires forall k :: 0 <= k < |es| ==> PositiveAmount(es[k])
    requires transfer.TransferRequest? && PositiveAmount(transfer)
    ensures var l := Run(Empty, es);
      && Valid(l) && Consistent(l) && NonNegative(l)
      && Transfer(l, transfer.sender, transfer.receiver, transfer.amount, transfer.reference,
                  transfer.senderName, transfer.receiverName).outcome != Sent
  {
    RunKeepsReachable(Empty, es);
    var l := Run(Empty, es);
    NoTransferCommits(l, transfer.sender, transfer.receiver, transfer.amount, transfer.reference,
                      transfer.senderName, transfer.receiverName);
  }
}
