/** The post-save hook on User: a freshly created user gets a wallet. */
module Signals {
  import opened Wrappers
  import opened Models
  import opened Store

  /** `create_wallet_for_new_user`. When `created` is false (an update of an
      existing user) nothing happens. Otherwise `Wallet.objects.create(user=...)`
      inserts a wallet with the default balance; a second wallet for the same
      user would violate the one-to-one constraint. */
  function CreateWalletForNewUser(l: Ledger, user: UserId, created: bool): (r: Result<Ledger, StoreError>)
    ensures !created ==> r == Success(l)
    ensures created && user in l.wallets ==> r == Failure(IntegrityError)
    ensures created && user !in l.wallets ==>
      && r.Success?
      && r.value.wallets.Keys == l.wallets.Keys + {user}
      && |r.value.wallets| == |l.wallets| + 1
      && r.value.wallets[user] == 0
      && (forall v :: v in l.wallets ==> r.value.wallets[v] == l.wallets[v])
      && r.value.log == l.log
  {
    if !created then Success(l)
    else if user in l.wallets then Failure(IntegrityError)
    else Success(l.(wallets := l.wallets[user := DefaultBalance]))
  }
}
