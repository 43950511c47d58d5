/** The treasury ledger as the application holds it: a main account, department balances and
    the allocations, investments, transactions and statements tables, updated in place by the
    operations of the treasury screens. Each operation either completes or, as a database
    transaction block that rolls back, leaves every table as it was. */
module Treasury {
  import opened LedgerTypes
  import opened Formulas
  import opened BulkImport
  import opened Split
  import opened Listings
  import opened LedgerSpec

  class Ledger {
    var main: real
    var depts: map<DeptId, real>
    var allocations: map<AllocId, Allocation>
    var investments: map<Ref, Investment>
    var transactions: map<Ref, Transaction>
    var statements: map<StatementId, string>

    function Snapshot(): Tables
      reads this
    {
      Tables(main, depts, allocations, investments, transactions, statements)
    }

    ghost predicate Valid()
      reads this
    {
      Consistent(Snapshot())
    }

    /** A new database: the main account opened at zero and every department at zero. */
    constructor (departments: set<DeptId>)
      ensures Valid()
      ensures Snapshot() == Initial(departments)
    {
      main := 0.0;
      depts := map d | d in departments :: 0.0;
      allocations := map[];
      investments := map[];
      transactions := map[];
      statements := map[];
    }

    /** The transaction entry form. `ref` and `allocId` are the freshly generated reference
        number and allocation id. */
    method RecordTransaction(e: Entry, ref: Ref, allocId: AllocId) returns (r: Result<real>)
      requires Valid() && EntryInForm(e)
      requires ref !in transactions && ref !in investments && allocId !in allocations
      modifies this
      ensures var s := Record(old(Snapshot()), e, ref, allocId); r == s.result && Snapshot() == s.after
      ensures Valid()
    {
      if e.debit > 0.0 && e.credit > 0.0 {
        return Err(InvalidAmount);
      } else if e.debit == 0.0 && e.credit == 0.0 {
        return Err(InvalidAmount);
      }
      var tax := EntryTax(e.debit, e.credit, e.taxPct);
      var totalDebit := if e.debit > 0.0 then e.debit + tax else 0.0;
      if e.debit > 0.0 && main < totalDebit {
        return Err(InsufficientFunds(MainAccount));
      }
      var tx := EntryTransaction(e, ref);
      transactions := transactions[ref := tx];
      if tx.txType == Debit {
        main := main - totalDebit;
      } else {
        main := main + (e.credit - tax);
      }
      var amount := if tx.txType == Credit then e.credit - tax else e.debit;
      allocations := allocations[allocId := Allocation(ref, None, amount, tx.txType, None)];
      if e.investment {
        investments := investments[ref := Investment(amount, Pending, None, allocId, None)];
      }
      assert Snapshot() == Record(old(Snapshot()), e, ref, allocId).after;
      RecordPreservesConsistent(old(Snapshot()), e, ref, allocId);
      return Ok(main);
    }

    /** The bulk upload of a statement file: validation, the balance pre-check, then the commit.
        `stmt` is the fresh statement id, `ids` the fresh allocation ids, one per row. */
    method ImportBatch(rows: seq<CsvRow>, parse: string -> Option<Day>, account: string, stmt: StatementId,
                       filename: string, ids: seq<AllocId>) returns (r: Result<real>)
      requires Valid() && |ids| == |rows| && Distinct(ids)
      requires forall k :: 0 <= k < |ids| ==> ids[k] !in allocations
      modifies this
      ensures Valid()
      ensures var s := Import(old(Snapshot()), rows, parse, account, stmt, filename, ids);
        r == s.result && Snapshot() == s.after
    {
      var fault := ValidateBatch(rows, parse);
      if fault.Some? {
        return Err(BatchValidation(fault.value.0, fault.value.1));
      }
      var parsed := ParseAll(rows, parse);
      if main + (TotalCredit(parsed) - TotalDebit(parsed)) < 0.0 {
        return Err(InsufficientFunds(MainAccount));
      }
      r := CommitBatch(parsed, account, stmt, filename, ids);
      ImportPreservesConsistent(old(Snapshot()), rows, parse, account, stmt, filename, ids);
    }

    /** The transaction block of the upload: the statement row, then for each row its
        transaction, its unallocated allocation and the change to the main balance. The block's
        writes take effect together when it commits; a statement id or a reference number
        already taken aborts it and nothing is written. */
    method CommitBatch(parsed: seq<Row>, account: string, stmt: StatementId, filename: string,
                       ids: seq<AllocId>) returns (r: Result<real>)
      requires |ids| == |parsed|
      modifies this
      ensures BatchFits(old(Snapshot()), parsed, stmt) ==>
        r == Ok(main) && Snapshot() == Commit(old(Snapshot()), parsed, account, stmt, filename, ids)
      ensures !BatchFits(old(Snapshot()), parsed, stmt) ==> r == Err(IntegrityConflict) && Snapshot() == old(Snapshot())
    {
      if stmt in statements {
        return Err(IntegrityConflict);
      }
      var saved := Snapshot();
      var balance, txs, allocs := main, transactions, allocations;
      var i := 0;
      while i < |parsed|
        invariant 0 <= i <= |parsed|
        invariant balance == saved.main + CommitNet(parsed[..i])
        invariant txs == saved.transactions + BatchTransactions(parsed[..i], account, stmt)
        invariant allocs == saved.allocations + BatchAllocations(parsed[..i], ids[..i], stmt)
        invariant RefsFit(saved, parsed[..i])
        modifies {}
      {
        var row := parsed[i];
        CommitStep(saved, parsed, ids, account, stmt, i);
        if row.ref in txs {
          RefCollision(saved, parsed, account, stmt, i);
          assert !BatchFits(saved, parsed, stmt);
          return Err(IntegrityConflict);
        }
        RefsFitStep(saved, parsed, account, stmt, i);
        txs := txs[row.ref := RowTransaction(row, account, stmt)];
        allocs := allocs[ids[i] := RowAllocation(row, stmt)];
        if RowType(row) == Debit {
          balance := balance - (row.debit + row.taxAmount);
        } else {
          balance := balance + (row.credit - row.taxAmount);
        }
        i := i + 1;
      }
      assert parsed[..|parsed|] == parsed && ids[..|ids|] == ids;
      statements := statements[stmt := filename];
      transactions, allocations, main := txs, allocs, balance;
      return Ok(main);
    }

    /** The general allocation screen: split an unallocated row across departments. `ids` are
        the fresh ids of the rows the split creates. The block's writes take effect together when
        it commits; a department that cannot cover its share of a debit aborts it. */
    method AllocatePending(allocId: AllocId, split: Split, ids: seq<AllocId>) returns (r: Result<()>)
      requires Valid() && SplitFits(Snapshot(), split, ids)
      modifies this
      ensures Valid()
      ensures var s := SplitPending(old(Snapshot()), allocId, split, ids); r == s.result && Snapshot() == s.after
    {
      if allocId !in allocations || allocations[allocId].treasuryRef !in transactions {
        return Err(NotFound);
      }
      var a := allocations[allocId];
      if !PendingListed(a, transactions[a.treasuryRef]) {
        return Err(NotFound);
      }
      if Abs(Total(split) - a.amount) > Tolerance {
        return Err(AllocationMismatch);
      }
      var short, balances, allocs := SplitChecked(depts, allocations, a.treasuryRef, split, ids, a.txType);
      if short.Some? {
        return Err(InsufficientFunds(Department(short.value)));
      }
      ghost var before := Snapshot();
      depts, allocations := balances, allocs - {allocId};
      assert Snapshot() == SplitPending(before, allocId, split, ids).after;
      SplitPendingOutcome(before, allocId, split, ids);
      return Ok(());
    }

    /** The investment allocation screen: split an unallocated investment row across
        departments, after checking every debited department can pay its share, and attribute
        the investment to the first department given a share. */
    method AllocateInvestment(allocId: AllocId, split: Split, ids: seq<AllocId>) returns (r: Result<()>)
      requires Valid() && SplitFits(Snapshot(), split, ids)
      modifies this
      ensures Valid()
      ensures var s := SplitInvestment(old(Snapshot()), allocId, split, ids); r == s.result && Snapshot() == s.after
    {
      if allocId !in allocations || allocations[allocId].treasuryRef !in transactions {
        return Err(NotFound);
      }
      var a := allocations[allocId];
      var ref := a.treasuryRef;
      if !InvestmentListed(a, transactions[ref], ref in investments) {
        return Err(NotFound);
      }
      if Total(split) != a.amount {
        return Err(AllocationMismatch);
      }
      if a.txType == Debit {
        var short := FindShortfall(depts, split);
        if short.Some? {
          return Err(InsufficientFunds(Department(short.value)));
        }
      }
      var rep, balances, allocs := SplitAttributed(depts, allocations, ref, split, ids, a.txType);
      ghost var before := Snapshot();
      depts, allocations := balances, allocs - {allocId};
      if rep != "" {
        investments := investments[ref := investments[ref].(department := Some(rep))];
      }
      assert Snapshot() == SplitInvestment(before, allocId, split, ids).after;
      SplitInvestmentOutcome(before, allocId, split, ids);
      return Ok(());
    }

    /** Confirming a pending investment with its deal terms. */
    method ConfirmInvestment(ref: Ref, account: string, period: int, rate: real) returns (r: Result<Quote>)
      requires Valid()
      modifies this
      ensures Valid()
      ensures var s := Confirm(old(Snapshot()), ref, account, period, rate); r == s.result && Snapshot() == s.after
    {
      if ref !in investments || ref !in transactions {
        return Err(NotFound);
      }
      var inv := investments[ref];
      if inv.status != Pending || inv.department.None? {
        return Err(NotFound);
      }
      var valueDate := transactions[ref].date;
      var q := ConfirmQuote(inv.amount, rate, period, valueDate);
      investments := investments[ref := inv.(status := Confirmed,
        terms := Some(Terms(account, period, valueDate, rate, q.maturityDate, q.interest, q.withholding, q.maturityAmount)))];
      ConfirmPreservesConsistent(old(Snapshot()), ref, account, period, rate);
      return Ok(q);
    }

    /** A department's own investment from its balance. `ref` and `allocId` are freshly generated. */
    method InvestFromDepartment(dept: DeptId, d: Deal, ref: Ref, allocId: AllocId) returns (r: Result<Terms>)
      requires Valid() && DealInForm(d)
      requires ref !in transactions && ref !in investments && allocId !in allocations
      modifies this
      ensures Valid()
      ensures var s := DepartmentInvest(old(Snapshot()), dept, d, ref, allocId); r == s.result && Snapshot() == s.after
    {
      if dept !in depts {
        return Err(NotFound);
      }
      var tax := TaxAmount(d.amount, d.taxPct);
      var total := d.amount + tax;
      if main < total {
        return Err(InsufficientFunds(MainAccount));
      } else if depts[dept] < d.amount {
        return Err(InsufficientFunds(Department(dept)));
      }
      var terms := DealTerms(d);
      investments := investments[ref := Investment(d.amount, Pending, Some(dept), allocId, Some(terms))];
      allocations := allocations[allocId := Allocation(ref, None, d.amount, Debit, None)];
      main := main - total;
      depts := depts[dept := depts[dept] - d.amount];
      transactions := transactions[ref := Transaction(ref, d.valueDate, d.valueDate, "Investment: " + d.account,
                                                      d.amount, 0.0, d.taxPct, tax, Debit, Some(InvestmentDebit),
                                                      None, d.account, None)];
      assert Snapshot() == DepartmentInvest(old(Snapshot()), dept, d, ref, allocId).after;
      DepartmentInvestPreservesConsistent(old(Snapshot()), dept, d, ref, allocId);
      return Ok(terms);
    }
  }
}
