/** The ORM operations the views use, read as operations on the abstract
    store, with the constraints the schema declares enforced on every write:
    DECIMAL(10, 2) on money, the column lengths, and the unique `reference_id`. */
module Store {
  import opened Wrappers
  import opened Models

  /** The exceptions a store operation can raise. */
  datatype StoreError =
    | DoesNotExist    // `get` found no row
    | IntegrityError  // a uniqueness constraint was violated
    | DataError       // a value does not fit its column

  /** `Transaction.objects.filter(reference_id=ref).exists()`. A null `ref`
      is translated to IS NULL, so it matches every row whose reference is null. */
  predicate HasReference(log: seq<Txn>, ref: Option<string>) {
    exists i :: 0 <= i < |log| && log[i].reference == ref
  }

  predicate ReferenceFits(ref: Option<string>) {
    ref.Some? ==> |ref.value| <= ReferenceMaxLength
  }

  /** The values of a new Transaction row fit their declared columns. */
  predicate RowFits(amount: Cents, description: string, reference: Option<string>) {
    && FitsDecimal(amount)
    && |description| <= DescriptionMaxLength
    && ReferenceFits(reference)
  }

  /** `Wallet.objects.get(user=u).balance`. */
  function GetBalance(l: Ledger, u: UserId): (r: Result<Cents, StoreError>)
    ensures r.Success? <==> u in l.wallets
    ensures r.Success? ==> r.value == l.wallets[u]
    ensures r.Failure? ==> r.error == DoesNotExist
  {
    if u in l.wallets then Success(l.wallets[u]) else Failure(DoesNotExist)
  }

  /** `wallet.save()` after setting its balance to `balance`: an UPDATE of
      one row, rejected when the value does not fit DECIMAL(10, 2). */
  function SaveBalance(l: Ledger, u: UserId, balance: Cents): (r: Result<Ledger, StoreError>)
    requires u in l.wallets
    ensures r.Success? <==> FitsDecimal(balance)
    ensures r.Failure? ==> r.error == DataError
    ensures r.Success? ==>
      && r.value.log == l.log
      && r.value.wallets.Keys == l.wallets.Keys
      && r.value.wallets[u] == balance
      && forall v :: v in l.wallets && v != u ==> r.value.wallets[v] == l.wallets[v]
  {
    if FitsDecimal(balance) then Success(l.(wallets := l.wallets[u := balance]))
    else Failure(DataError)
  }

  /** `Transaction.objects.create(...)`: appends one row stamped with the
      next timestamp. Rejected with DataError when a value does not fit its
      column, and with IntegrityError when a non-null reference is already taken. */
  function Insert(l: Ledger, wallet: UserId, amount: Cents, kind: Kind,
                  description: string, reference: Option<string>): (r: Result<Ledger, StoreError>)
    requires wallet in l.wallets
    ensures r.Success? <==>
      RowFits(amount, description, reference) && !(reference.Some? && HasReference(l.log, reference))
    ensures r.Failure? ==> (r.error == IntegrityError <==> RowFits(amount, description, reference))
    ensures r.Failure? ==> r.error != DoesNotExist
    ensures r.Success? ==>
      && r.value.wallets == l.wallets
      && r.value.log == l.log + [Txn(wallet, amount, kind, |l.log|, description, reference)]
  {
    if !RowFits(amount, description, reference) then Failure(DataError)
    else if reference.Some? && HasReference(l.log, reference) then Failure(IntegrityError)
    else Success(l.(log := l.log + [Txn(wallet, amount, kind, |l.log|, description, reference)]))
  }
}
