/** The properties every committed state of the store is meant to have, and
    the arithmetic facts about the log that the preservation proofs use. */
module Invariants {
  import opened Models
  import opened Store

  /** Sum of the credit amounts recorded against wallet `u`. */
  function Credits(log: seq<Txn>, u: UserId): int {
    if |log| == 0 then 0
    else
      var t := log[|log| - 1];
      Credits(log[..|log| - 1], u) + (if t.wallet == u && t.kind == Credit then t.amount else 0)
  }

  /** Sum of the debit amounts recorded against wallet `u`. */
  function Debits(log: seq<Txn>, u: UserId): int {
    if |log| == 0 then 0
    else
      var t := log[|log| - 1];
      Debits(log[..|log| - 1], u) + (if t.wallet == u && t.kind == Debit then t.amount else 0)
  }

  /** What the log says wallet `u` should hold. */
  function Net(log: seq<Txn>, u: UserId): int {
    Credits(log, u) - Debits(log, u)
  }

  /** The signed effect of one row on wallet `u`. */
  function Effect(t: Txn, u: UserId): int {
    if t.wallet != u then 0
    else if t.kind == Credit then t.amount
    else -t.amount
  }

  /** Ledger consistency: every balance equals its credits minus its debits. */
  predicate Consistent(l: Ledger) {
    forall u :: u in l.wallets ==> l.wallets[u] == Net(l.log, u)
  }

  predicate NonNegative(l: Ledger) {
    forall u :: u in l.wallets ==> l.wallets[u] >= 0
  }

  /** Every balance fits DECIMAL(10, 2). */
  predicate BalancesFit(l: Ledger) {
    forall u :: u in l.wallets ==> FitsDecimal(l.wallets[u])
  }

  /** Timestamps are assigned once, in insertion order. */
  predicate WellTimed(log: seq<Txn>) {
    forall i :: 0 <= i < |log| ==> log[i].timestamp == i
  }

  /** Every row belongs to an existing wallet (the foreign key) and fits its columns. */
  predicate RowsWellFormed(l: Ledger) {
    forall i :: 0 <= i < |l.log| ==>
      l.log[i].wallet in l.wallets && RowFits(l.log[i].amount, l.log[i].description, l.log[i].reference)
  }

  /** No two rows share a non-null `reference_id`. */
  predicate UniqueReferences(log: seq<Txn>) {
    forall i, j :: 0 <= i < j < |log| && log[i].reference.Some? ==> log[i].reference != log[j].reference
  }

  /** The schema-level invariants the store itself maintains. */
  predicate Valid(l: Ledger) {
    && BalancesFit(l)
    && WellTimed(l.log)
    && RowsWellFormed(l)
    && UniqueReferences(l.log)
  }

  lemma NetAppend(log: seq<Txn>, t: Txn, u: UserId)
    ensures Net(log + [t], u) == Net(log, u) + Effect(t, u)
  {
  }

  /** A wallet with no rows in the log nets to zero. */
  lemma {:induction false} NetOfStranger(log: seq<Txn>, u: UserId)
    requires forall i :: 0 <= i < |log| ==> log[i].wallet != u
    ensures Net(log, u) == 0
  {
    if |log| > 0 {
      NetOfStranger(log[..|log| - 1], u);
    }
  }

  /** Sum of all balances. */
  ghost function Total(m: map<UserId, Cents>): int
    decreases |m|
  {
    if m.Keys == {} then 0
    else
      var k :| k in m.Keys;
      m[k] + Total(m - {k})
  }

  /** The total does not depend on which key is taken out first. */
  lemma {:induction false} TotalRemove(m: map<UserId, Cents>, k: UserId)
    requires k in m
    ensures Total(m) == m[k] + Total(m - {k})
    decreases |m|
  {
    var k0 :| k0 in m.Keys && Total(m) == m[k0] + Total(m - {k0});
    if k0 != k {
      var m0 := m - {k0};
      var mk := m - {k};
      TotalRemove(m0, k);
      TotalRemove(mk, k0);
      assert m0 - {k} == mk - {k0};
    }
  }

  lemma TotalUpdate(m: map<UserId, Cents>, k: UserId, v: Cents)
    requires k in m
    ensures Total(m[k := v]) == Total(m) - m[k] + v
  {
    TotalRemove(m, k);
    TotalRemove(m[k := v], k);
    assert m[k := v] - {k} == m - {k};
  }
}
