/** Records of the treasury ledger: the rows of the transactions, allocations and
    investments tables, and the errors that the ledger operations report. */
module LedgerTypes {

  /** Reference number of a transaction: the key that allocations and investments join on. */
  type Ref = string
  type AllocId = string
  type DeptId = string
  type StatementId = string
  /** A calendar date, as a day number. */
  type Day = int

  datatype Option<T> = None | Some(value: T)

  datatype Result<T> = Ok(value: T) | Err(error: Error)

  datatype TxType = Debit | Credit

  /** The `debit_type` column; NULL on credit transactions. */
  datatype DebitKind = InvestmentDebit | OtherDebit

  /** The `credit_type` column; NULL on debit transactions. */
  datatype CreditKind = CreditInvestments | OtherCredit

  datatype Transaction = Transaction(
    ref: Ref,
    date: Day,
    valueDate: Day,
    narration: string,
    debit: real,
    credit: real,
    taxPct: real,
    taxAmount: real,
    txType: TxType,
    debitKind: Option<DebitKind>,
    creditKind: Option<CreditKind>,
    account: string,
    statement: Option<StatementId>)

  /** A row of the allocations table; `department == None` while it is still pending. */
  datatype Allocation = Allocation(
    treasuryRef: Ref,
    department: Option<DeptId>,
    amount: real,
    txType: TxType,
    statement: Option<StatementId>)

  datatype Status = Pending | Confirmed

  /** The deal terms an investment row carries once they are fixed. */
  datatype Terms = Terms(
    account: string,
    period: int,
    valueDate: Day,
    rate: real,
    maturityDate: Day,
    interest: real,
    withholding: real,
    maturityAmount: real)

  /** A row of the investments table, keyed by its reference number. */
  datatype Investment = Investment(
    amount: real,
    status: Status,
    department: Option<DeptId>,
    allocation: AllocId,
    terms: Option<Terms>)

  datatype Account = MainAccount | Department(id: DeptId)

  /** Why a row of an imported statement is refused. */
  datatype RowFault = BadDate | NegativeAmount | BothAmounts | BadTaxPercentage | MissingField | NoAmount

  datatype Error =
    | InvalidAmount
    | InsufficientFunds(account: Account)
    | AllocationMismatch
    | BatchValidation(row: nat, fault: RowFault)
    | NotFound
    | IntegrityConflict

  predicate Distinct<T(==)>(s: seq<T>)
  {
    forall i, j :: 0 <= i < j < |s| ==> s[i] != s[j]
  }
}
