# Wallet ledger core, modelled in Dafny

This project models the ledger of a Django wallet app. The app keeps one
wallet per user with a balance. It also keeps an append-only log of
Transaction rows (credit or debit, amount, timestamp, description,
optional unique `reference_id`). Three operations work on this state:

- `transfer_money` moves money between two users. It runs a reference
  pre-check, then an atomic block with a sufficiency check, a debit and a
  credit of the balances, and two row inserts.
- `add_money` credits the caller's own wallet.
- The history query of `wallet_home` and `transactions_api` lists a
  wallet's transactions newest first.

A post-save hook on User creates a zero-balance wallet for every new user.

The ORM is read as operations on an abstract store (`Store`). Every write
to the store enforces the constraints the schema declares:

- DECIMAL(10, 2) on both money columns, so a value in cents has magnitude
  below 10^10;
- at most 255 characters of description and 100 characters of reference;
- a unique non-null `reference_id`;
- one wallet per user.

A violated constraint raises `DataError` or `IntegrityError`. A failed
`get` raises `DoesNotExist`. `transaction.atomic()` means "the new state
if the block finishes, the old state if an exception leaves it". Money is
integer cents. A timestamp is the row's insertion position. A user is an
opaque `nat`, and a wallet is named by its owner.

Modules, following the source files:

- `Models` (wallet/models.py): the tables, the column bounds and the
  `Ledger` state.
- `Store`: lookup, save and insert, with their constraints.
- `Invariants`: ledger consistency, non-negative balances, column fit,
  well-timed log, unique references, and the sum of balances.
- `Signals` (wallet/signals.py): the wallet-creation hook.
- `Views` (wallet/views.py): transfer, deposit and history.
- `Properties`: per-call lemmas.
- `Reachability`: whole runs from an empty database.
- `Corrected`: the transfer with the defects of the Findings table fixed.

Sharp edges of the code that the model keeps as written:

- Both rows of a transfer carry the same `reference_id`, and that column is
  unique. A transfer with a non-null reference therefore always rolls back
  on its second insert.
- A transfer without a reference is checked with `reference_id IS NULL`.
  Any earlier deposit's row matches, so the transfer is suppressed.
- Self-transfer is modelled as written, with no `sender != receiver`
  guard. The receiver's wallet is a second copy read before the sender's
  save, so the final balance is the old balance plus the amount.
- `add_money` has no atomic block. Its balance save commits before its
  credit insert.
- Neither view checks `amount > 0`. Lemmas that need a sign take it as a
  precondition.

Taken together, these edges mean that from an empty database, with
positive amounts, no transfer ever commits, when only the views and the
user hook write the store (`Reachability.EmptyStoreRuns`). A balance set
through the admin site, with no null-reference row in the log, lets a
transfer without a reference commit (`Properties.UnreferencedTransferCommits`).

The code locks the sender's wallet and then the receiver's, lets a
uniqueness failure escape the atomic block as an exception (modelled as
`RolledBack(IntegrityError)`), and does not reject self-transfer.

## Model

| member | source | states |
|---|---|---|
| Models.DecimalBoundValue | wallet/models.py:14 | the DECIMAL(10, 2) bound, counted in cents, is ten billion |
| Store.GetBalance | wallet/views.py:80-81 | a wallet lookup yields the owner's balance exactly when the user has a wallet, and DoesNotExist otherwise |
| Store.SaveBalance | wallet/models.py:14 | saving a balance succeeds exactly when it fits DECIMAL(10, 2); it changes only that wallet and never the log |
| Store.Insert | wallet/models.py:22-42 | an insert succeeds exactly when amount, description and reference fit their columns and a non-null reference is not already taken; it appends one row stamped with the next timestamp and touches no balance |
| Signals.CreateWalletForNewUser | wallet/signals.py:13-18 | on an update nothing changes; on creation exactly one wallet, with balance 0, is added for the new user, other wallets and the log are unchanged; a second wallet for the same user is refused |
| Views.Transfer | wallet/views.py:63-119 | the pre-check short-circuits with nothing changed exactly when a row already carries the reference (null matching null); otherwise missing wallets give DoesNotExist and a sender holding less than the amount gives the insufficient-balance outcome, exactly in those cases; any outcome but a commit leaves the store unchanged; a commit needs both wallets and a sufficient sender, raises the receiver's read balance by the amount, lowers a distinct sender by it, leaves other wallets alone and appends a debit on the sender then a credit on the receiver with that amount and reference |
| Views.AddMoney | wallet/views.py:140-162 | a deposit completes exactly when the wallet exists and both the new balance and the amount fit DECIMAL(10, 2); then it raises exactly the caller's balance by the amount and appends one credit row with a null reference; when the new balance fits but the amount does not, the raised balance is saved with no row and DataError is raised; any other failure changes nothing; a user without a wallet gets DoesNotExist |
| Views.TransactionHistory | wallet/views.py:201-207 | the result holds exactly the rows of the user's wallet, in strictly decreasing timestamp order on a well-timed log; a user without a wallet gets DoesNotExist |
| Properties.ReferencedTransferNeverSent | wallet/views.py:96-115 | a transfer with a non-null reference never commits; when every other check passes it rolls back with IntegrityError on the second insert |
| Properties.UnreferencedTransferCommits | wallet/views.py:84-115 | with no null-reference row yet, both wallets present, a sufficient sender and values that fit, a transfer without a reference commits |
| Properties.NullReferenceSuppressed | wallet/views.py:63-67 | any row with a null reference makes every transfer without a reference a no-op |
| Properties.DepositBlocksUnreferencedTransfers | wallet/views.py:154-159 | after a completed deposit every transfer without a reference is suppressed by the pre-check |
| Properties.InsufficientBalanceChangesNothing | wallet/views.py:84-89 | a sender holding less than the amount gets the insufficient-balance outcome and the store is unchanged |
| Properties.CommittedTransferMovesMoney | wallet/views.py:91-106 | a committed transfer between distinct wallets lowers the sender by the amount to a non-negative balance, raises the receiver by it, leaves every other wallet alone and conserves the total of all balances |
| Properties.SelfTransferCreatesMoney | wallet/views.py:80-106 | a committed self-transfer leaves the wallet at its old balance plus the amount while its log nets to zero, so for a non-zero amount it breaks ledger consistency |
| Properties.TransferPreservesConsistency | wallet/views.py:91-115 | every transfer between distinct wallets keeps each balance equal to its credits minus its debits |
| Properties.TransferPreservesNonNegative | wallet/views.py:84-93 | with a non-negative amount no transfer makes a balance negative |
| Properties.TransferPreservesValid | wallet/models.py:9-42 | every transfer keeps balances within DECIMAL(10, 2), rows well-formed and owned by existing wallets, timestamps in insertion order and non-null references unique |
| Properties.DepositFailureChangesNothing | wallet/views.py:149-159 | a deposit whose amount fits DECIMAL(10, 2) and that does not complete leaves the store unchanged |
| Properties.DepositCanCommitWithoutRecord | wallet/views.py:149-159 | a concrete store where a negative deposit's balance save commits but its credit row is refused, leaving an unrecorded balance change |
| Properties.DepositPreservesConsistency | wallet/views.py:149-159 | a deposit of any amount that fits DECIMAL(10, 2), of either sign, keeps the ledger consistent |
| Properties.DepositPreservesNonNegative | wallet/views.py:149-151 | a deposit of a non-negative amount keeps every balance non-negative |
| Properties.DepositPreservesValid | wallet/views.py:149-159 | every deposit, of any amount and on any valid store, keeps the schema invariants, including one that saves the balance without a row |
| Properties.CreateWalletPreservesInvariants | wallet/signals.py:16-18 | the hook keeps every invariant, a fresh wallet having no rows and balance 0 |
| Reachability.NoTransferCommits | wallet/views.py:65-115 | in a state where all balances are zero until a null-reference row exists, no transfer of a positive amount commits |
| Reachability.ApplyKeepsReachable | wallet/views.py:63-159 | user saves, deposits and transfers with positive amounts keep the reachable-state invariant |
| Reachability.RunKeepsReachable | wallet/views.py:63-159 | any sequence of such events keeps the reachable-state invariant |
| Reachability.EmptyStoreRuns | wallet/views.py:63-159 | every state reached from the empty database with positive amounts is valid, consistent and non-negative, and in it no positive transfer commits |
| Corrected.InsertKeyed | wallet/models.py:42 | under UNIQUE(reference, kind) an insert succeeds exactly when the row fits and no row of the same kind has the reference; it keeps at most one debit and one credit per reference |
| Corrected.Transfer | wallet/views.py:63-115 | the corrected transfer: a taken non-null reference short-circuits, any other outcome than a commit changes nothing, a commit moves the amount between distinct wallets and leaves a self-transfer's balances unchanged |
| Corrected.FreshTransferCommits | wallet/views.py:96-115 | with a fresh or absent reference, existing wallets (a self-transfer included), a sufficient sender and values that fit, the corrected transfer commits |
| Corrected.RetryIsAlreadyProcessed | wallet/views.py:65-67 | repeating a committed referenced transfer is suppressed and changes nothing |
| Corrected.TransferConservesTotal | wallet/views.py:91-106 | every corrected transfer, self-transfer included, keeps the ledger consistent and the total of balances unchanged |
| Corrected.TransferKeepsKeyedReferencesUnique | wallet/models.py:42 | every corrected transfer keeps at most one debit and one credit row per non-null reference |

## Findings

| source | as written | input that shows it | evidently intended | confidence | as-written member | corrected member |
|---|---|---|---|---|---|---|
| wallet/views.py:96-115 | the debit and the credit row both store `reference_id` under a unique constraint | any transfer with reference "r1" and enough funds: the credit insert raises IntegrityError and the block rolls back | a fresh reference commits once and a retry is suppressed | high, not executed | Properties.ReferencedTransferNeverSent | Corrected.FreshTransferCommits |
| wallet/views.py:65-67 | `filter(reference_id=None)` is IS NULL, so a request without a reference matches any null-reference row | a transfer with no reference after any deposit is silently dropped | no reference means no idempotency guard | medium, not executed | Properties.DepositBlocksUnreferencedTransfers | Corrected.FreshTransferCommits |
| wallet/views.py:80-106 | sender and receiver wallets are separate copies read before either save | a self-transfer of 10.00 on a wallet of 50.00 with no null-reference row (a balance set through the admin site) leaves 60.00 | a transfer conserves the total of all balances | medium, not executed | Properties.SelfTransferCreatesMoney | Corrected.TransferConservesTotal |

The rest of the model (`Views`, `Properties`, `Reachability`) keeps the
as-written transfer. `Corrected` sits beside it: it reuses the store, the
invariants and the outcome types, and the three corrections are proved there.

## Left out

- Row locking (`select_for_update`) and its sender-then-receiver lock order are left out. They concern concurrent requests and deadlock, and the model is sequential. The same goes for the lost update a concurrent `add_money` could suffer.
- HTTP plumbing is left out: `render`/`redirect`, `login_required`, GET branches, the receiver dropdown, `signup_page` and `UserCreationForm`. The outcome datatypes stand for the pages a request ends on.
- Parsing the posted amount into a `Decimal` is left out. Amounts are integer cents, so sub-cent inputs and unparsable strings are not modelled.
- The `User.objects.get` lookup of the receiver is left out. It runs before anything is written, so a missing receiver changes nothing. Wallet lookups are modelled, with DoesNotExist.
- `wallet_api` is left out. It only projects the stored balance.
- The serializers, URL routing and app config are left out. They are field projection and registration only.
- The admin site is left out. wallet/admin.py registers Wallet and Transaction, and the URL configuration mounts the admin at /admin/, so staff can edit balances and add or delete rows. That second writer is not modelled: the invariants and `Reachability.EmptyStoreRuns` hold only while the views and the user hook are the only writers.
- Real clock time is left out. A timestamp is the row's insertion position.
- The Store is modelled as a backend that enforces declared column precision and length, as PostgreSQL does. SQLite stores out-of-range values unchecked, and there the DataError branches do not occur.
- Usernames are plain string parameters that only feed the row descriptions. The User table is not modelled.
- Views.TransactionHistory: the newest-first order is stated for logs whose timestamps follow insertion order. `Invariants.WellTimed` holds for every log the model produces. Sorting arbitrary timestamps, and the unspecified order of equal real-clock timestamps, are not modelled.
- Properties.TransferPreservesNonNegative and Properties.DepositPreservesNonNegative take a non-negative amount as a precondition. The source never checks the amount's sign, and a negative amount can drive a balance below zero.
- Properties.TransferPreservesConsistency requires distinct sender and receiver. A self-transfer breaks consistency, as Properties.SelfTransferCreatesMoney shows.
- Properties.DepositPreservesConsistency and Properties.DepositFailureChangesNothing require the amount to fit DECIMAL(10, 2). A wider amount can save the balance with no row, as Properties.DepositCanCommitWithoutRecord shows.
