/** Bulk import of a bank statement: validation of every row before anything is written,
    the balance pre-check over the whole batch, and the rows the commit writes. */
module BulkImport {
  import opened LedgerTypes
  import opened Formulas

  /** A row of the uploaded CSV file; `None` is a missing (NaN) cell. */
  datatype CsvRow = CsvRow(
    transactionDate: Option<string>,
    valueDate: Option<string>,
    narration: Option<string>,
    ref: Option<Ref>,
    debit: Option<real>,
    credit: Option<real>,
    taxPct: Option<real>,
    taxAmount: Option<real>)

  /** `validate_date`: the cell holds text that the calendar parser `parse` accepts.
      The parser itself (strptime with `%Y-%m-%d`) is a parameter of the model. */
  predicate ValidDate(cell: Option<string>, parse: string -> Option<Day>)
  {
    cell.Some? && parse(cell.value).Some?
  }

  /** A numeric comparison on a cell; a missing cell compares false, as NaN does. */
  predicate Below(cell: Option<real>, bound: real)
  {
    cell.Some? && cell.value < bound
  }

  predicate Above(cell: Option<real>, bound: real)
  {
    cell.Some? && cell.value > bound
  }

  predicate Complete(row: CsvRow)
  {
    && row.transactionDate.Some? && row.valueDate.Some? && row.narration.Some? && row.ref.Some?
    && row.debit.Some? && row.credit.Some? && row.taxPct.Some? && row.taxAmount.Some?
  }

  /** The checks of the validation loop, in the order the importer makes them. */
  function RowFaultAsWritten(row: CsvRow, parse: string -> Option<Day>): (f: Option<RowFault>)
    ensures f.None? ==> Complete(row) && ValidDate(row.transactionDate, parse) && ValidDate(row.valueDate, parse)
    ensures f.None? ==> row.debit.value >= 0.0 && row.credit.value >= 0.0
    ensures f.None? ==> !(row.debit.value > 0.0 && row.credit.value > 0.0)
    ensures f.None? ==> 0.0 <= row.taxPct.value <= 100.0
  {
    if !ValidDate(row.transactionDate, parse) || !ValidDate(row.valueDate, parse) then Some(BadDate)
    else if Below(row.debit, 0.0) || Below(row.credit, 0.0) then Some(NegativeAmount)
    else if Above(row.debit, 0.0) && Above(row.credit, 0.0) then Some(BothAmounts)
    else if Below(row.taxPct, 0.0) || Above(row.taxPct, 100.0) then Some(BadTaxPercentage)
    else if !Complete(row) then Some(MissingField)
    else None
  }

  /** The validation the model uses: the checks above, and a row whose debit and credit are
      both zero is refused as well. */
  function RowFault(row: CsvRow, parse: string -> Option<Day>): (f: Option<RowFault>)
    ensures f.None? ==> RowFaultAsWritten(row, parse).None?
    ensures f.None? ==> (row.debit.value > 0.0) != (row.credit.value > 0.0)
  {
    var f := RowFaultAsWritten(row, parse);
    if f.Some? then f
    else if row.debit.value == 0.0 && row.credit.value == 0.0 then Some(NoAmount)
    else None
  }

  predicate AllRowsValid(rows: seq<CsvRow>, parse: string -> Option<Day>)
  {
    forall k :: 0 <= k < |rows| ==> RowFault(rows[k], parse).None?
  }

  /** The first faulty row of a batch and why it is refused, or `None` when every row passes. */
  function FirstFault(rows: seq<CsvRow>, parse: string -> Option<Day>): (r: Option<(nat, RowFault)>)
    ensures r.None? <==> AllRowsValid(rows, parse)
    ensures r.Some? ==>
      && r.value.0 < |rows|
      && RowFault(rows[r.value.0], parse) == Some(r.value.1)
      && forall j :: 0 <= j < r.value.0 ==> RowFault(rows[j], parse).None?
  {
    if |rows| == 0 then None
    else match RowFault(rows[0], parse)
      case Some(f) => Some((0, f))
      case None =>
        match FirstFault(rows[1..], parse)
        case None => None
        case Some((k, f)) => Some((k + 1, f))
  }

  /** The validation pass: stops at the first faulty row. */
  method ValidateBatch(rows: seq<CsvRow>, parse: string -> Option<Day>) returns (fault: Option<(nat, RowFault)>)
    ensures fault == FirstFault(rows, parse)
  {
    var i := 0;
    while i < |rows|
      invariant 0 <= i <= |rows|
      invariant forall j :: 0 <= j < i ==> RowFault(rows[j], parse).None?
    {
      var f := RowFault(rows[i], parse);
      if f.Some? {
        return Some((i, f.value));
      }
      i := i + 1;
    }
    return None;
  }

  // ---- validated rows -------------------------------------------------------------

  /** A row that passed the validation pass, with its dates parsed. */
  datatype Row = Row(
    date: Day,
    valueDate: Day,
    narration: string,
    ref: Ref,
    debit: real,
    credit: real,
    taxPct: real,
    taxAmount: real)

  function Parse(row: CsvRow, parse: string -> Option<Day>): Row
    requires RowFaultAsWritten(row, parse).None?
  {
    Row(parse(row.transactionDate.value).value, parse(row.valueDate.value).value, row.narration.value,
        row.ref.value, row.debit.value, row.credit.value, row.taxPct.value, row.taxAmount.value)
  }

  function ParseAll(rows: seq<CsvRow>, parse: string -> Option<Day>): (parsed: seq<Row>)
    requires AllRowsValid(rows, parse)
    ensures |parsed| == |rows|
    ensures forall k :: 0 <= k < |rows| ==> parsed[k] == Parse(rows[k], parse)
  {
    seq(|rows|, k requires 0 <= k < |rows| => Parse(rows[k], parse))
  }

  /** Exactly one of debit and credit is positive, and neither is negative. */
  predicate OneSided(r: Row)
  {
    r.debit >= 0.0 && r.credit >= 0.0 && (r.debit > 0.0) != (r.credit > 0.0)
  }

  lemma ParsedRowsOneSided(rows: seq<CsvRow>, parse: string -> Option<Day>)
    requires AllRowsValid(rows, parse)
    ensures forall k :: 0 <= k < |rows| ==> OneSided(ParseAll(rows, parse)[k])
  {
    forall k | 0 <= k < |rows|
      ensures OneSided(ParseAll(rows, parse)[k])
    {
      assert RowFault(rows[k], parse).None?;
    }
  }

  // ---- balance pre-check and commit ----------------------------------------------

  /** `total_debit`: debit plus tax over the rows with a positive debit. */
  function TotalDebit(rows: seq<Row>): real
  {
    if |rows| == 0 then 0.0
    else
      var r := rows[|rows| - 1];
      TotalDebit(rows[..|rows| - 1]) + (if r.debit > 0.0 then r.debit + r.taxAmount else 0.0)
  }

  /** `total_credit`: credit less tax over the rows with a positive credit. */
  function TotalCredit(rows: seq<Row>): real
  {
    if |rows| == 0 then 0.0
    else
      var r := rows[|rows| - 1];
      TotalCredit(rows[..|rows| - 1]) + (if r.credit > 0.0 then r.credit - r.taxAmount else 0.0)
  }

  /** `net_balance_change` of the pre-check. */
  function NetChange(rows: seq<Row>): real
  {
    TotalCredit(rows) - TotalDebit(rows)
  }

  /** A row is a debit when its debit is positive, otherwise a credit. */
  function RowType(r: Row): TxType
  {
    if r.debit > 0.0 then Debit else Credit
  }

  /** The change the commit loop applies to the main balance for one row. */
  function RowDelta(r: Row): real
  {
    if RowType(r) == Debit then -(r.debit + r.taxAmount) else r.credit - r.taxAmount
  }

  function CommitNet(rows: seq<Row>): real
  {
    if |rows| == 0 then 0.0 else CommitNet(rows[..|rows| - 1]) + RowDelta(rows[|rows| - 1])
  }

  /** On one-sided rows the commit moves the main balance by exactly the net change the
      pre-check approved. */
  lemma {:induction false} CommitMatchesPrecheck(rows: seq<Row>)
    requires forall k :: 0 <= k < |rows| ==> OneSided(rows[k])
    ensures CommitNet(rows) == NetChange(rows)
  {
    if |rows| > 0 {
      CommitMatchesPrecheck(rows[..|rows| - 1]);
    }
  }

  function RowAllocationAmount(r: Row): real
  {
    if RowType(r) == Debit then r.debit else r.credit - r.taxAmount
  }

  function RowTransaction(r: Row, account: string, stmt: StatementId): Transaction
  {
    var t := RowType(r);
    Transaction(r.ref, r.date, r.valueDate, r.narration, r.debit, r.credit, r.taxPct, r.taxAmount, t,
                if t == Debit then Some(OtherDebit) else None,
                if t == Credit then Some(OtherCredit) else None,
                account, Some(stmt))
  }

  function RowAllocation(r: Row, stmt: StatementId): Allocation
  {
    Allocation(r.ref, None, RowAllocationAmount(r), RowType(r), Some(stmt))
  }

  /** The transactions a committed batch adds, keyed by reference number. */
  function BatchTransactions(rows: seq<Row>, account: string, stmt: StatementId): map<Ref, Transaction>
  {
    if |rows| == 0 then map[]
    else
      var r := rows[|rows| - 1];
      BatchTransactions(rows[..|rows| - 1], account, stmt)[r.ref := RowTransaction(r, account, stmt)]
  }

  /** The allocations a committed batch adds, one per row under the row's fresh id. */
  function BatchAllocations(rows: seq<Row>, ids: seq<AllocId>, stmt: StatementId): map<AllocId, Allocation>
    requires |ids| == |rows|
  {
    if |rows| == 0 then map[]
    else
      var n := |rows| - 1;
      BatchAllocations(rows[..n], ids[..n], stmt)[ids[n] := RowAllocation(rows[n], stmt)]
  }

  function Refs(rows: seq<Row>): (refs: seq<Ref>)
    ensures |refs| == |rows| && forall k :: 0 <= k < |rows| ==> refs[k] == rows[k].ref
  {
    seq(|rows|, k requires 0 <= k < |rows| => rows[k].ref)
  }

  lemma {:induction false} BatchTransactionsKeys(rows: seq<Row>, account: string, stmt: StatementId, ref: Ref)
    ensures ref in BatchTransactions(rows, account, stmt) <==> exists k :: 0 <= k < |rows| && rows[k].ref == ref
  {
    if |rows| > 0 {
      var init := rows[..|rows| - 1];
      BatchTransactionsKeys(init, account, stmt, ref);
      if exists k :: 0 <= k < |init| && init[k].ref == ref {
        var k :| 0 <= k < |init| && init[k].ref == ref;
        assert rows[k] == init[k];
      }
      if exists k :: 0 <= k < |rows| && rows[k].ref == ref {
        var k :| 0 <= k < |rows| && rows[k].ref == ref;
        if k < |rows| - 1 {
          assert init[k] == rows[k];
        }
      }
    }
  }

  /** With distinct reference numbers, every row of the batch becomes one transaction
      tagged with the statement, and nothing else is added. */
  lemma {:induction false} BatchTransactionsContent(rows: seq<Row>, account: string, stmt: StatementId, k: nat)
    requires Distinct(Refs(rows)) && k < |rows|
    ensures rows[k].ref in BatchTransactions(rows, account, stmt)
    ensures BatchTransactions(rows, account, stmt)[rows[k].ref] == RowTransaction(rows[k], account, stmt)
    ensures BatchTransactions(rows, account, stmt)[rows[k].ref].statement == Some(stmt)
  {
    var n := |rows| - 1;
    if k < n {
      var init := rows[..n];
      assert Refs(init) == Refs(rows)[..n];
      assert init[k] == rows[k];
      BatchTransactionsContent(init, account, stmt, k);
      assert Refs(rows)[k] != Refs(rows)[n];
    }
  }

  lemma {:induction false} BatchAllocationsKeys(rows: seq<Row>, ids: seq<AllocId>, stmt: StatementId, id: AllocId)
    requires |ids| == |rows|
    ensures id in BatchAllocations(rows, ids, stmt) <==> exists k :: 0 <= k < |ids| && ids[k] == id
  {
    if |rows| > 0 {
      var n := |rows| - 1;
      BatchAllocationsKeys(rows[..n], ids[..n], stmt, id);
      if exists k :: 0 <= k < n && ids[..n][k] == id {
        var k :| 0 <= k < n && ids[..n][k] == id;
        assert ids[k] == id;
      }
      if exists k :: 0 <= k < |ids| && ids[k] == id {
        var k :| 0 <= k < |ids| && ids[k] == id;
        if k < n {
          assert ids[..n][k] == id;
        }
      }
    }
  }

  /** With distinct ids, every row of the batch becomes one unallocated allocation tagged with
      the statement, for the debit or for the credit less its tax. */
  lemma {:induction false} BatchAllocationsContent(rows: seq<Row>, ids: seq<AllocId>, stmt: StatementId, k: nat)
    requires |ids| == |rows| && Distinct(ids) && k < |rows|
    ensures ids[k] in BatchAllocations(rows, ids, stmt)
    ensures var a := BatchAllocations(rows, ids, stmt)[ids[k]];
      && a.treasuryRef == rows[k].ref && a.department.None? && a.statement == Some(stmt)
      && a.txType == RowType(rows[k])
      && a.amount == (if rows[k].debit > 0.0 then rows[k].debit else rows[k].credit - rows[k].taxAmount)
  {
    var n := |rows| - 1;
    if k < n {
      assert rows[..n][k] == rows[k] && ids[..n][k] == ids[k];
      BatchAllocationsContent(rows[..n], ids[..n], stmt, k);
      assert ids[k] != ids[n];
    }
  }

  // ---- the zero-amount row --------------------------------------------------------

  /** A statement row with no debit and no credit but a recorded tax of 5 passes the
      validation as written; the pre-check counts it for nothing, yet the commit loop treats
      it as a credit and takes its tax out of the main account. */
  lemma ZeroAmountRowSlipsPastPrecheck()
    ensures var parse := (s: string) => Some(0);
      var row := CsvRow(Some("2024-01-01"), Some("2024-01-01"), Some("Bank charge"), Some("ZR000001"),
                        Some(0.0), Some(0.0), Some(0.0), Some(5.0));
      && RowFaultAsWritten(row, parse).None?
      && NetChange([Parse(row, parse)]) == 0.0
      && CommitNet([Parse(row, parse)]) == -5.0
      && RowFault(row, parse) == Some(NoAmount)
  {
    var parse := (s: string) => Some(0);
    var row := CsvRow(Some("2024-01-01"), Some("2024-01-01"), Some("Bank charge"), Some("ZR000001"),
                      Some(0.0), Some(0.0), Some(0.0), Some(5.0));
    var rows := [Parse(row, parse)];
    assert rows[..0] == [];
  }
}
