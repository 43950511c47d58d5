/** Which unallocated allocations the two allocation screens offer. Each screen selects its
    rows with a SQL condition over the allocation and its transaction; SQL comparisons with
    NULL yield neither true nor false, so the conditions are evaluated in three-valued logic. */
module Listings {
  import opened LedgerTypes

  /** SQL truth values. */
  datatype Tri = True | False | Unknown

  function SqlAnd(a: Tri, b: Tri): Tri
  {
    if a == False || b == False then False
    else if a == True && b == True then True
    else Unknown
  }

  function SqlOr(a: Tri, b: Tri): Tri
  {
    if a == True || b == True then True
    else if a == False && b == False then False
    else Unknown
  }

  /** `column = 'text'` on a nullable text column. */
  function SqlEq(column: Option<string>, text: string): Tri
  {
    if column.None? then Unknown else if column.value == text then True else False
  }

  /** `column != 'text'` on a nullable text column. */
  function SqlNe(column: Option<string>, text: string): Tri
  {
    if column.None? then Unknown else if column.value != text then True else False
  }

  function TypeText(t: TxType): string
  {
    if t == Debit then "Debit" else "Credit"
  }

  function DebitText(k: Option<DebitKind>): Option<string>
  {
    match k
    case None => None
    case Some(InvestmentDebit) => Some("Investment")
    case Some(OtherDebit) => Some("Other")
  }

  function CreditText(k: Option<CreditKind>): Option<string>
  {
    match k
    case None => None
    case Some(CreditInvestments) => Some("Credit Investments")
    case Some(OtherCredit) => Some("Other")
  }

  /** The transaction carries the kind column of its own direction and not the other one. */
  predicate KindsConsistent(tx: Transaction)
  {
    && (tx.txType == Debit ==> tx.debitKind.Some? && tx.creditKind.None?)
    && (tx.txType == Credit ==> tx.creditKind.Some? && tx.debitKind.None?)
  }

  predicate IsInvestment(tx: Transaction)
  {
    tx.debitKind == Some(InvestmentDebit) || tx.creditKind == Some(CreditInvestments)
  }

  // ---- the general allocation screen --------------------------------------------

  /** The selection of the general allocation screen as written:
      `department_id IS NULL AND (type = 'Credit' OR (type = 'Debit' AND debit_type != 'Investment'))
       AND credit_type != 'Credit Investments'`. */
  predicate PendingListedAsWritten(a: Allocation, tx: Transaction)
  {
    var typeCol := Some(TypeText(a.txType));
    var cond := SqlAnd(
      SqlOr(SqlEq(typeCol, "Credit"), SqlAnd(SqlEq(typeCol, "Debit"), SqlNe(DebitText(tx.debitKind), "Investment"))),
      SqlNe(CreditText(tx.creditKind), "Credit Investments"));
    a.department.None? && cond == True
  }

  /** On a debit transaction the `credit_type` column is NULL, so the last conjunct is never
      true and no debit allocation reaches the general screen. */
  lemma DebitNeverPendingAsWritten(a: Allocation, tx: Transaction)
    requires tx.creditKind.None?
    ensures !PendingListedAsWritten(a, tx)
  {
  }

  /** The selection the screen evidently means: unallocated, and not an investment of either
      direction (a NULL kind column counts as "not that kind"). */
  predicate PendingListed(a: Allocation, tx: Transaction)
  {
    && a.department.None?
    && (a.txType == Credit || tx.debitKind != Some(InvestmentDebit))
    && tx.creditKind != Some(CreditInvestments)
  }

  /** The two selections agree on every credit, and the written one never lists a row that
      the intended one leaves out. */
  lemma PendingAsWrittenAgreesOnCredits(a: Allocation, tx: Transaction)
    requires KindsConsistent(tx) && a.txType == tx.txType
    ensures PendingListedAsWritten(a, tx) ==> PendingListed(a, tx)
    ensures a.txType == Credit ==> (PendingListedAsWritten(a, tx) <==> PendingListed(a, tx))
  {
  }

  // ---- the investment allocation screen -----------------------------------------

  /** The selection of the investment allocation screen: joined with an investment row,
      `department_id IS NULL AND (debit_type = 'Investment' OR credit_type = 'Credit Investments')`. */
  predicate InvestmentListed(a: Allocation, tx: Transaction, hasInvestment: bool)
  {
    var cond := SqlOr(SqlEq(DebitText(tx.debitKind), "Investment"), SqlEq(CreditText(tx.creditKind), "Credit Investments"));
    a.department.None? && hasInvestment && cond == True
  }

  /** Here the NULL columns do no harm: the screen lists exactly the unallocated investment rows. */
  lemma InvestmentListedIff(a: Allocation, tx: Transaction, hasInvestment: bool)
    ensures InvestmentListed(a, tx, hasInvestment) <==> a.department.None? && hasInvestment && IsInvestment(tx)
  {
    match tx.debitKind {
      case None =>
      case Some(k) =>
    }
    match tx.creditKind {
      case None =>
      case Some(k) =>
    }
  }

  /** Every unallocated allocation of a transaction with consistent kinds, whose investment row
      exists when it is an investment, is offered by exactly one of the two screens. */
  lemma ScreensPartitionPending(a: Allocation, tx: Transaction, hasInvestment: bool)
    requires KindsConsistent(tx) && a.txType == tx.txType && a.department.None?
    requires IsInvestment(tx) ==> hasInvestment
    ensures PendingListed(a, tx) != InvestmentListed(a, tx, hasInvestment)
  {
    InvestmentListedIff(a, tx, hasInvestment);
  }

  /** As written, an ordinary debit allocation is offered by neither screen. */
  lemma OrdinaryDebitStrandedAsWritten(ref: Ref, amount: real, day: Day)
    ensures var tx := Transaction(ref, day, day, "Bank charge", amount, 0.0, 0.0, 0.0, Debit,
                                  Some(OtherDebit), None, "Operating", None);
      var a := Allocation(ref, None, amount, Debit, None);
      && KindsConsistent(tx)
      && !PendingListedAsWritten(a, tx)
      && !InvestmentListed(a, tx, false)
      && PendingListed(a, tx)
  {
  }
}
