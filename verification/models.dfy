/** The two tables of the wallet app: one Wallet per user holding a balance,
    and an append-only log of Transaction rows. Money is kept in integer cents,
    since both money columns are fixed-point decimals with two fractional digits. */
module Models {
  import opened Wrappers

  /** A user is an opaque identifier; its wallet is keyed by it (one-to-one). */
  type UserId = nat

  /** A fixed-point amount with two fractional digits, counted in cents. */
  type Cents = int

  /** DECIMAL(max_digits = 10, decimal_places = 2). */
  const MaxDigits: nat := 10
  const DecimalPlaces: nat := 2

  function Pow10(n: nat): (r: nat)
    ensures r > 0
  {
    if n == 0 then 1 else 10 * Pow10(n - 1)
  }

  /** A DECIMAL(MaxDigits, DecimalPlaces) value has at most
      MaxDigits - DecimalPlaces digits before the point; counted in units of
      10^-DecimalPlaces it has at most MaxDigits digits, so its magnitude is
      below 10^MaxDigits (largest 99999999.99). */
  const DecimalBound: int := Pow10(MaxDigits - DecimalPlaces) * Pow10(DecimalPlaces)

  /** DECIMAL(10, 2) counted in cents: magnitudes below ten billion. */
  lemma DecimalBoundValue()
    ensures DecimalBound == 10_000_000_000
  {
    assert Pow10(2) == 100 by { assert Pow10(1) == 10; }
    assert Pow10(4) == 10_000 by { assert Pow10(3) == 1_000; }
    assert Pow10(6) == 1_000_000 by { assert Pow10(5) == 100_000; }
    assert Pow10(8) == 100_000_000 by { assert Pow10(7) == 10_000_000; }
  }

  /** Column lengths of `description` and `reference_id`. */
  const DescriptionMaxLength: nat := 255
  const ReferenceMaxLength: nat := 100

  /** Default of `Wallet.balance`. */
  const DefaultBalance: Cents := 0

  predicate FitsDecimal(c: Cents) {
    -DecimalBound < c < DecimalBound
  }

  /** `transaction_type`: the only two choices of the column. */
  datatype Kind = Credit | Debit

  /** One Transaction row. `wallet` names the owning wallet by its user;
      `timestamp` is the position at which the row was inserted; a null
      `reference_id` is `None`. */
  datatype Txn = Txn(
    wallet: UserId,
    amount: Cents,
    kind: Kind,
    timestamp: nat,
    description: string,
    reference: Option<string>)

  /** The whole store: each user's wallet balance and the transaction log
      in insertion order. */
  datatype Ledger = Ledger(wallets: map<UserId, Cents>, log: seq<Txn>)

  /** A database with no wallets and no transactions. */
  const Empty: Ledger := Ledger(map[], [])
}
