# Treasury ledger — a Dafny model

This project models the ledger and allocation engine of a small treasury application
(`appp.py`). The application keeps these tables:

- a main account balance;
- department balances;
- transactions, keyed by reference number;
- allocations, the amounts still to be split across departments and those already assigned;
- investments;
- uploaded bank statements.

Every screen that writes runs its statements inside one database transaction block. The block
either commits all of its writes or rolls back every one of them.

The model covers these operations:

- the transaction entry form: tax, net amount, the signed change to the main account, one
  unallocated allocation, and an optional pending investment;
- the bulk CSV upload of a statement: validation of every row, the balance pre-check, then the
  commit as one block;
- the general allocation screen: a split within 0.01 of the amount, with a per-department
  overdraft check on debits;
- the investment allocation screen: an exact total, an overdraft pre-check, and the investment
  attributed to the first department given a positive share;
- confirmation of an investment with its deal terms;
- a department's own investment from its balance;
- the selections that decide which rows each allocation screen offers;
- the statement reconciliation report and the tax verification of the latest statement.

Layout:

- `types.dfy`: the entities (`Transaction`, `Allocation`, `Investment`, `Terms`) and the error
  outcomes.
- `formulas.dfy`: the closed-form arithmetic. This covers tax, the effect of an entry, and
  simple interest with 20% withholding, maturity and yield.
- `bulk_import.dfy`: CSV row validation, the pre-check totals, and the rows the commit writes.
- `split.dfy`: splitting an amount across departments, the overdraft check, the two
  allocation loops, and the representative department.
- `listings.dfy`: the two screens' SQL selections, evaluated in SQL three-valued logic.
- `schema.dfy`: the investments table's columns against the two INSERT statements that write
  it.
- `reconciliation.dfy`: tariff matching and the two discrepancy reports.
- `ledger_spec.dfy`: the tables as a value and the ledger invariant `Consistent`. Each
  operation is a pure transition returning its result and the tables it leaves.
- `ledger.dfy`: the class `Treasury.Ledger`, whose fields are the tables and whose methods
  update them in place. Each method is proved equal to its transition and to keep `Valid()`.
  Writes inside a block are gathered in locals and assigned when the block commits, so an
  aborted block leaves the fields untouched.

The invariant `Consistent` requires:

- every transaction is keyed by its own reference number, and its debit and credit kind columns
  match its direction;
- every allocation belongs to a recorded transaction of the same direction, and names a known
  department when it names one;
- investment rows and investment transactions come in pairs;
- no account is overdrawn.

Money is modelled as exact `real`. Dates are day numbers. The date parser used by
`validate_date` is a parameter `parse: string -> Option<Day>`, and a CSV date cell is valid
exactly when `parse` accepts it. The ids the application draws from `uuid4` are parameters.
The caller supplies entry references and allocation ids fresh. An upload's statement id is
checked against the statements table like the CSV's reference numbers.

## Model

| member | source | states |
|---|---|---|
| Formulas.TaxBounds | appp.py:676-687 | For a percentage within the form's 0..100, the tax on an amount lies between 0 and the amount. |
| Formulas.EntryConservation | appp.py:682-752 | A debit takes its amount plus tax out of the main account and allocates the debit. A credit adds the credit less tax, and allocates exactly what it added, which lies between 0 and the credit. |
| Formulas.QuoteBreakdown | appp.py:1256-1268 | In a deal note, withholding plus net interest equals the interest, and the net interest is 80% of it. The maturity amount is the gross maturity less withholding, profit equals the net interest, and the maturity date is the value date plus the tenor. |
| Formulas.QuoteBounds | appp.py:1256-1268 | With a non-negative rate and a tenor of at least one day, the maturity amount lies between the principal and the gross maturity value, and profit is non-negative. |
| Formulas.YieldIsFourFifthsOfRate | appp.py:1265-1267 | For a positive principal and tenor, the after-tax yield is 80% of the nominal rate. |
| Formulas.FullYearDeal | appp.py:1256-1268 | For 1000 at 10% over 365 days: interest 100, withholding 20, maturity amount 1080, after-tax yield 8%, profit 80. |
| Formulas.DepartmentMaturityAgrees | appp.py:1399-1402 | The department path's `amount + interest - withholding` equals the maturity amount confirmation computes. |
| LedgerSpec.Initial | appp.py:126-144 | The initial ledger (main account and every department at 0, empty tables) is consistent and has exactly the given departments. |
| LedgerSpec.RecordOutcome | appp.py:693-779 | An entry succeeds if and only if exactly one amount is positive and, for a debit, the main account covers the debit plus tax. A refused entry changes nothing. An accepted one moves the main account by the signed net amount and leaves it non-negative. It writes exactly the entry's transaction and one unassigned allocation of the net amount in the entry's direction. For an investment entry it also writes a pending, unattributed investment of that amount pointing at the allocation. Departments and statements are left alone. |
| LedgerSpec.RecordPreservesConsistent | appp.py:718-768 | Recording an entry keeps the ledger consistent, including the investment row written for an investment entry. |
| LedgerSpec.ImportOutcome | appp.py:813-940 | A refused upload changes nothing, and an invalid batch is refused with its first faulty row. An accepted upload had every row valid, and its statement id and reference numbers were new to the tables. It moves the main account by exactly the pre-check's net change and leaves it non-negative. It leaves exactly the tables `Commit` describes: the statement, one transaction and one allocation per row, with departments and investments untouched. Conversely, a valid batch that the main account can absorb and whose statement id and reference numbers are new is accepted, and leaves the tables `Commit` describes. |
| LedgerSpec.ImportPreservesConsistent | appp.py:858-928 | An upload, accepted or refused, leaves the ledger consistent. |
| LedgerSpec.DistributeEffect | appp.py:1043-1076 | After a split, the named departments' balances together move by the split total (up for a credit, down for a debit). Every other department keeps its balance, the unallocated row is gone, and each positive entry has an assigned row with its department and amount. |
| LedgerSpec.DistributePreservesConsistent | appp.py:1043-1076 | A split whose debit every department can cover keeps the ledger consistent. |
| LedgerSpec.SplitPendingOutcome | appp.py:1034-1083 | The general allocation succeeds if and only if the row is listed, the split is within 0.01 of its amount and, for a debit, every department covers its share. An accepted split leaves exactly the tables `Distribute` describes. A refusal changes nothing. Either way the ledger stays consistent. |
| LedgerSpec.SplitInvestmentOutcome | appp.py:1164-1227 | The investment allocation succeeds if and only if the row is listed, the split total equals its amount exactly and, for a debit, every department covers its share. A refusal changes nothing. Either way the ledger stays consistent. |
| LedgerSpec.SplitInvestmentAttributes | appp.py:1184-1210 | An accepted investment split moves the departments and writes and deletes the allocation rows as `Distribute` describes. It leaves the main account, transactions and statements unchanged, and changes no investment but the split one. That investment takes the representative department when there is one and otherwise keeps its own. |
| LedgerSpec.EveryPendingRowOffered | appp.py:984-991 | In a consistent ledger, each unallocated row is offered by exactly one of the two allocation screens, under the corrected general selection. |
| LedgerSpec.ConfirmOutcome | appp.py:1230-1282 | Confirmation succeeds if and only if the investment is pending, is attributed to a department, and has its transaction. It moves no money and changes no row but the confirmed investment. The quote is the one for the investment's amount, the rate and the tenor from the transaction's date. The investment becomes confirmed, and its stored terms are the account, tenor, value date, rate and the quote's maturity date, interest, withholding and maturity amount. A second confirmation is refused. |
| LedgerSpec.ConfirmPreservesConsistent | appp.py:1270-1282 | Confirmation keeps the ledger consistent. |
| LedgerSpec.DepartmentInvestOutcome | appp.py:1381-1440 | A department's investment succeeds if and only if the department exists, the main account covers amount plus tax, and the department covers the amount. On success the main account pays amount plus tax, the department pays the amount, and no other department moves. It writes exactly a pending investment attributed to the department with the deal's terms, an unassigned debit allocation of the amount, and an investment-debit transaction of the amount and its tax. The terms mature on the value date plus the tenor, with the interest, withholding and maturity amount confirmation would compute. A refusal changes nothing. |
| LedgerSpec.DepartmentInvestPreservesConsistent | appp.py:1406-1440 | A department's investment keeps the ledger consistent. |
| BulkImport.RowFaultAsWritten | appp.py:827-848 | The validation checks in the importer's order. A row they pass is complete, has two parseable dates, no negative amount, not both amounts positive, and a percentage within 0..100. |
| BulkImport.RowFault | appp.py:827-848 | The validation the model applies. It passes only rows the written checks pass, and then exactly one of debit and credit is positive. |
| BulkImport.FirstFault | appp.py:827-848 | There is no fault if and only if every row is valid. Otherwise it reports the index of the first faulty row and that row's fault, and every earlier row is valid. |
| BulkImport.ValidateBatch | appp.py:827-848 | The validation loop returns the first fault of the batch. |
| BulkImport.ParsedRowsOneSided | appp.py:831-837 | Every row of a batch validated by `RowFault` (the corrected validation) has exactly one positive amount and none negative. |
| BulkImport.CommitMatchesPrecheck | appp.py:851-928 | On one-sided rows, the change the commit loop applies to the main account equals the pre-check's `total_credit - total_debit`. |
| BulkImport.BatchTransactionsKeys | appp.py:874-914 | The batch's transactions are keyed exactly by the rows' reference numbers. |
| BulkImport.BatchTransactionsContent | appp.py:874-914 | With distinct reference numbers, each row becomes its own transaction, tagged with the statement. |
| BulkImport.BatchAllocationsKeys | appp.py:874-925 | The batch's allocations are keyed exactly by the fresh ids. |
| BulkImport.BatchAllocationsContent | appp.py:874-925 | Each row's allocation is unassigned, tagged with the statement, of the row's direction. Its amount is the debit, or else the credit less tax. |
| BulkImport.ZeroAmountRowSlipsPastPrecheck | appp.py:835-856 | A row with no debit, no credit and a tax of 5 passes the written checks and contributes 0 to the pre-check, but the commit takes 5 from the main account. The corrected validation refuses it. |
| Split.ApplySplit | appp.py:1068-1073 | Applying a split keeps the set of departments. |
| Split.ApplySplitUntouched | appp.py:1043-1073 | A department the split does not name keeps its balance. |
| Split.ApplySplitEffect | appp.py:1043-1073 | With each department named once, a department moves by exactly its own entry, when that entry is positive. |
| Split.PositiveTotalIsTotal | appp.py:1034-1044 | With no negative entries, the amount the loop moves equals the split total. |
| Split.ApplySplitConserves | appp.py:1043-1073 | The named departments' balances together move by exactly the signed sum of the positive entries. |
| Split.FirstShortfall | appp.py:1045-1054 | There is no shortfall if and only if every department can cover its debit share. Otherwise it returns the first entry that cannot be covered. |
| Split.FindShortfall | appp.py:1170-1180 | The investment screen's pre-check finds the department of the first uncovered entry. |
| Split.ApplySplitSolvent | appp.py:1045-1073 | An affordable debit split, or any credit split, with no negative entries leaves every department non-negative. |
| Split.SplitRowsContent | appp.py:1056-1066 | The rows a split writes are exactly its positive entries, each assigned to its department with its amount. |
| Split.SplitChecked | appp.py:1043-1073 | The general screen's loop stops at the department of the first uncovered debit entry. Otherwise it yields the split balances and the assigned rows. |
| Split.SplitAttributed | appp.py:1186-1204 | The investment screen's loop yields the split balances, the assigned rows and the representative department. |
| Split.Representative | appp.py:1184-1189 | The representative, when there is one, is a non-empty department id. |
| Split.RepresentativeIsFirstEligible | appp.py:1184-1189 | The representative is the first entry with a positive amount and a non-empty id. There is none exactly when no entry qualifies. |
| Listings.DebitNeverPendingAsWritten | appp.py:984-991 | As written, the general screen never lists a row whose transaction has no credit kind, which is every debit. |
| Listings.PendingAsWrittenAgreesOnCredits | appp.py:984-991 | The written selection lists nothing the corrected one leaves out, and the two agree on every credit. |
| Listings.InvestmentListedIff | appp.py:1127-1135 | The investment screen lists a row if and only if it is unassigned, has an investment row, and its transaction is an investment of either direction. |
| Listings.ScreensPartitionPending | appp.py:984-991 | Under the corrected selection, an unassigned row of a transaction with consistent kinds is offered by exactly one of the two screens. |
| Listings.OrdinaryDebitStrandedAsWritten | appp.py:984-991 | As written, an ordinary bank-charge debit is offered by neither screen, though the corrected selection lists it. |
| Schema.DepartmentInsertRejectedAsWritten | appp.py:1406-1420 | The department path's INSERT names `currency`, which the investments table lacks, so the table refuses it. |
| Schema.DepartmentInsertAccepted | appp.py:71-89 | Without `currency` the department row fits the table, as the entry form's row does, and it keeps every other column. |
| Reconciliation.ContainsIffOccurs | appp.py:1560 | Python's `in` on strings holds exactly when the needle occurs at some index of the haystack. |
| Reconciliation.FirstMatch | appp.py:1558-1562 | The tariff chosen is the first in table order whose lower-cased description is a substring of the lower-cased narration. There is none only when no tariff matches. |
| Reconciliation.FlaggedIffReasons | appp.py:1566-1586 | A row is reported exactly when it has a reason: a tax mismatch beyond 0.01, both amounts, no amount, or a blank narration. |
| Reconciliation.Reconcile | appp.py:1549-1598 | The reconciliation loop produces the report of flagged rows in row order. |
| Reconciliation.ReportMembers | appp.py:1549-1598 | A discrepancy is in the report exactly when it is the entry of some flagged row. |
| Reconciliation.ReportLength | appp.py:1549-1598 | The report has no more entries than there are rows. |
| Reconciliation.VerifyTaxes | appp.py:1736-1756 | The verification loop keeps the rows whose tax differs from the expected tax by more than 0.01. |
| Reconciliation.VerifyReportMembers | appp.py:1736-1756 | A row is in the verification exactly when it is the annotation of a row beyond the tolerance. |
| Reconciliation.UnmatchedUntaxedNeverVerified | appp.py:1748-1756 | In the verification, a row that matches no tariff and carries no percentage has difference 0 and is never flagged. |
| Reconciliation.VerificationWithinReconciliation | appp.py:1736-1756 | When a tariff applies or the row carries a positive percentage, both reports expect the same tax. A row the verification flags is also in the reconciliation report. |
| Reconciliation.VariantsDisagreeOnUntaxedRows | appp.py:1549-1586 | An untaxed row that matches no tariff but records a tax above 0.01 is reported by the reconciliation but not by the verification. |
| Reconciliation.TariffPrecedence | appp.py:1553-1562 | A matching tariff overrides the row's own percentage: "VAT on fees" at VAT 15% expects 15% of the amount, not the row's 5%. |
| Treasury.Ledger.constructor | appp.py:126-144 | A new ledger is the initial one and is valid. |
| Treasury.Ledger.RecordTransaction | appp.py:693-779 | The entry form's effect on the tables equals `Record`, and the ledger stays valid. |
| Treasury.Ledger.ImportBatch | appp.py:813-940 | The upload's outcome and effect equal `Import`: validation, then the pre-check, then the commit. The ledger stays valid. |
| Treasury.Ledger.CommitBatch | appp.py:858-937 | The commit block writes the statement, each row's transaction and allocation, and the main account change. A statement id or reference number already taken aborts the block with nothing written. |
| Treasury.Ledger.AllocatePending | appp.py:1034-1083 | The general allocation screen's effect equals `SplitPending`, and the ledger stays valid. |
| Treasury.Ledger.AllocateInvestment | appp.py:1164-1227 | The investment allocation screen's effect equals `SplitInvestment`, and the ledger stays valid. |
| Treasury.Ledger.ConfirmInvestment | appp.py:1245-1282 | Confirmation's effect equals `Confirm`, and the ledger stays valid. |
| Treasury.Ledger.InvestFromDepartment | appp.py:1381-1440 | A department's investment has the effect of `DepartmentInvest`, and the ledger stays valid. |

## Left out

- User interface, rendering, authentication, users and roles, the dashboards and the recent
  or active listings are not modelled. The statement list and the deal note text are not
  modelled either.
- SQL text is not modelled. Each statement is modelled by its effect on the tables.
  `created_by`, `created_at` and the transaction table's surrogate `id` are not kept.
- Reading the CSV and the missing-column check (lines 818-824) are not modelled. A row is a
  record of optional cells, and a NaN cell is `None`.
- The per-row checks in the commit loop are not modelled. These are the critical-column check
  (lines 891-898) and the `debit_type`/`credit_type` checks (lines 899-905). They can never
  fire, for two reasons. The loop itself sets the id, the author and time stamp, the account,
  the statement id and the two kind columns. The reference number and the transaction date
  come from the CSV row, and the validation at lines 827-848 has already refused a row
  missing either.
- The internals of `strptime` and `validate_date` are not modelled. They are represented by
  the parameter `parse`.
- `uuid4` and `now()` are not modelled. Each generated id is a parameter. The methods require
  fresh ids for entry and department references and for allocation ids. The statement id of an
  upload and the reference numbers from a CSV are checked instead: a collision with an existing
  key aborts the block, as the tables' primary and unique keys do.
- Floating-point rounding is not modelled: amounts are exact reals. The displays' rounding to
  cents is not modelled either.
- `lower()` is modelled on ASCII letters only. `strip()` is modelled on the ASCII characters
  Python treats as whitespace: space, tab, line feed, vertical tab, form feed, carriage return,
  and 0x1C to 0x1F. Non-ASCII whitespace is not modelled.
- The reconciliation's choice of account and statement (lines 1530-1545) is not modelled. The
  rows of the chosen statement are the input.
- The `or 0.0` applied to a NULL balance is not modelled. Balances are never NULL in the
  model.
- Treasury.Ledger.InvestFromDepartment, LedgerSpec.DepartmentInvestOutcome: a department id
  unknown to the table makes the source raise outside its `try` block. The model returns
  `NotFound` and changes nothing.
- Treasury.Ledger.InvestFromDepartment, LedgerSpec.DepartmentInvest: these model the department
  path with two corrections. As written, every department investment rolls back, for two
  reasons (third Findings row):
  - the investments table has no `currency` column;
  - the deal note's `st.download_button` (lines 1474-1479) sits inside the form and inside the
    `with conn:` block, and Streamlit raises on a download button in a form.
  The model records the investment and does not keep the form's currency. It leaves the
  download out, as the confirmation path does at lines 1311-1318.
- Treasury.Ledger.ImportBatch, LedgerSpec.Import: these model the corrected validation
  `RowFault`, which refuses a row whose debit and credit are both 0. As written, such a row is
  committed as a credit and moves the main account by minus its tax amount (first Findings
  row).
- Treasury.Ledger.AllocatePending, LedgerSpec.SplitPending: these model the corrected
  selection `PendingListed`. As written, the general screen never lists a debit, so an
  ordinary debit cannot be split at all, while the model splits it (second Findings row).
- Treasury.Ledger.AllocatePending: a split is modelled as a list of (department, amount)
  entries in table order. It names each department at most once and no entry is negative, as
  the form's one non-negative input per department guarantees.

## Findings

| source | as written | input that shows it | evidently intended | confidence | as-written member | corrected member |
|---|---|---|---|---|---|---|
| appp.py:827-856 | The row checks let through a row with debit 0 and credit 0. The pre-check ignores it, but the commit treats it as a credit and applies `credit - tax_amount`. | A CSV row with debit 0, credit 0, percentage 0 and tax_amount 5: the pre-check sees a net change of 0, and the commit lowers the main account by 5. | Refuse a row with no amount, as the entry form does (lines 695-696). The commit then moves the main account by exactly the pre-checked net change. | not executed | BulkImport.ZeroAmountRowSlipsPastPrecheck | BulkImport.CommitMatchesPrecheck |
| appp.py:984-991 | `t.credit_type != 'Credit Investments'` is NULL on every debit transaction, whose credit_type is NULL, so the WHERE clause is never true for a debit. | An ordinary debit entered on the form (debit_type 'Other', credit_type NULL): its allocation appears on neither allocation screen. | Treat a NULL kind as "not an investment", so that an ordinary debit appears on the general screen. | not executed | Listings.OrdinaryDebitStrandedAsWritten | Listings.ScreensPartitionPending |
| appp.py:1406-1420 | The department path inserts a `currency` column that `CREATE TABLE investments` (lines 71-89) does not declare. A second cause of rollback is that the block also calls `st.download_button` (lines 1474-1479) inside the form opened at line 1367. | Any department investment: SQLite refuses the INSERT, and the block rolls back. | Insert the row without `currency`, which the table can hold. Also move the deal note's download button out of the form and the block, as the confirmation path does at lines 1311-1318, because Streamlit raises on a download button inside a form. | not executed | Schema.DepartmentInsertRejectedAsWritten | Schema.DepartmentInsertAccepted |
