/** The columns of the investments table and the columns the two paths that create an
    investment row insert into. SQLite refuses an INSERT that names a column the table lacks,
    and the enclosing transaction block then rolls back every write of the operation. */
module Schema {

  /** The columns `CREATE TABLE investments` declares. */
  const InvestmentsColumns: set<string> := {
    "id", "ref_number", "amount", "created_by", "created_at", "status", "transaction_ref",
    "department_id", "account_name", "period", "value_date", "interest_rate", "maturity_date",
    "interest", "withholding_tax", "maturity_amount", "allocation_id"
  }

  /** Columns of the investment row written when a transaction is marked as an investment. */
  const EntryInvestmentColumns: seq<string> := [
    "ref_number", "amount", "created_by", "created_at", "status", "transaction_ref", "allocation_id"
  ]

  /** Columns of the investment row written by a department's own investment, as written. */
  const DepartmentInvestmentColumnsAsWritten: seq<string> := [
    "ref_number", "transaction_ref", "account_name", "currency", "period", "amount", "value_date",
    "interest_rate", "maturity_date", "interest", "withholding_tax", "maturity_amount",
    "created_by", "created_at", "status", "allocation_id", "department_id"
  ]

  /** The same row without the currency, which the table has no place for. */
  const DepartmentInvestmentColumns: seq<string> := [
    "ref_number", "transaction_ref", "account_name", "period", "amount", "value_date",
    "interest_rate", "maturity_date", "interest", "withholding_tax", "maturity_amount",
    "created_by", "created_at", "status", "allocation_id", "department_id"
  ]

  /** The table accepts an INSERT only when it has every column the statement names. */
  predicate InsertAccepted(columns: seq<string>, table: set<string>)
  {
    forall k :: 0 <= k < |columns| ==> columns[k] in table
  }

  /** The department path names `currency`, which the investments table does not have:
      the insert fails, the block rolls back, and a department can never record an investment. */
  lemma DepartmentInsertRejectedAsWritten()
    ensures "currency" !in InvestmentsColumns
    ensures !InsertAccepted(DepartmentInvestmentColumnsAsWritten, InvestmentsColumns)
  {
    assert DepartmentInvestmentColumnsAsWritten[3] == "currency";
  }

  /** Without the currency the department row fits the table, as the entry form's row does,
      and it loses nothing else the written statement stores. */
  lemma DepartmentInsertAccepted()
    ensures InsertAccepted(DepartmentInvestmentColumns, InvestmentsColumns)
    ensures InsertAccepted(EntryInvestmentColumns, InvestmentsColumns)
    ensures forall c :: c in DepartmentInvestmentColumnsAsWritten && c != "currency" ==> c in DepartmentInvestmentColumns
  {
  }
}
