/** The ledger as a value: the tables the treasury operations read and write, the invariant
    they keep, and each operation as a function from the tables before to its result and the
    tables after. */
module LedgerSpec {
  import opened LedgerTypes
  import opened Formulas
  import opened BulkImport
  import opened Split
  import opened Listings

  datatype Tables = Tables(
    main: real,
    depts: map<DeptId, real>,
    allocations: map<AllocId, Allocation>,
    investments: map<Ref, Investment>,
    transactions: map<Ref, Transaction>,
    statements: map<StatementId, string>)

  /** The outcome of an operation: what it reports and the tables it leaves. */
  datatype Step<T> = Step(result: Result<T>, after: Tables)

  // ---- the invariant ------------------------------------------------------------

  predicate TransactionsWellFormed(t: Tables)
  {
    forall r :: r in t.transactions ==> t.transactions[r].ref == r && KindsConsistent(t.transactions[r])
  }

  /** Every allocation belongs to a recorded transaction of the same direction, and an
      assigned one names a known department. */
  predicate AllocationLinked(t: Tables, a: Allocation)
  {
    && a.treasuryRef in t.transactions
    && a.txType == t.transactions[a.treasuryRef].txType
    && (a.department.Some? ==> a.department.value in t.depts)
  }

  predicate AllocationsLinked(t: Tables)
  {
    forall id :: id in t.allocations ==> AllocationLinked(t, t.allocations[id])
  }

  /** Investment rows and investment transactions come in pairs. */
  predicate InvestmentsLinked(t: Tables)
  {
    && (forall r :: r in t.investments ==> r in t.transactions)
    && (forall r :: r in t.transactions && IsInvestment(t.transactions[r]) ==> r in t.investments)
    && (forall r :: r in t.investments && t.investments[r].department.Some? ==>
          t.investments[r].department.value in t.depts)
  }

  /** No account is overdrawn. */
  predicate Solvent(t: Tables)
  {
    t.main >= 0.0 && forall d :: d in t.depts ==> t.depts[d] >= 0.0
  }

  predicate Consistent(t: Tables)
  {
    TransactionsWellFormed(t) && AllocationsLinked(t) && InvestmentsLinked(t) && Solvent(t)
  }

  /** A fresh ledger: the main account and every department at zero, all tables empty. */
  function Initial(departments: set<DeptId>): (t: Tables)
    ensures Consistent(t)
    ensures t.depts.Keys == departments
  {
    Tables(0.0, map d | d in departments :: 0.0, map[], map[], map[], map[])
  }

  /** Writing one new transaction with its unallocated allocation (and, for an investment,
      its investment row) keeps the tables linked. */
  lemma InsertPreservesLinks(t: Tables, u: Tables, tx: Transaction, allocId: AllocId, al: Allocation,
                             inv: Option<Investment>)
    requires TransactionsWellFormed(t) && AllocationsLinked(t) && InvestmentsLinked(t)
    requires tx.ref !in t.transactions && KindsConsistent(tx)
    requires al.treasuryRef == tx.ref && al.txType == tx.txType && al.department.None?
    requires u.transactions == t.transactions[tx.ref := tx]
    requires u.allocations == t.allocations[allocId := al]
    requires u.depts.Keys == t.depts.Keys
    requires u.investments == (if inv.Some? then t.investments[tx.ref := inv.value] else t.investments)
    requires inv.Some? ==> inv.value.department.None? || inv.value.department.value in t.depts
    requires IsInvestment(tx) ==> inv.Some?
    ensures TransactionsWellFormed(u) && AllocationsLinked(u) && InvestmentsLinked(u)
  {
    assert forall r :: r in t.transactions ==> u.transactions[r] == t.transactions[r];
    forall id | id in u.allocations
      ensures AllocationLinked(u, u.allocations[id])
    {
      if id != allocId {
        assert AllocationLinked(t, t.allocations[id]);
      }
    }
  }

  // ---- a single transaction entry -----------------------------------------------

  /** The fields of the entry form. */
  datatype Entry = Entry(
    date: Day,
    narration: string,
    account: string,
    debit: real,
    credit: real,
    taxPct: real,
    investment: bool)

  /** What the form's inputs allow: amounts not negative, tax percentage within 0..100. */
  predicate EntryInForm(e: Entry)
  {
    e.debit >= 0.0 && e.credit >= 0.0 && 0.0 <= e.taxPct <= 100.0
  }

  function EntryTransaction(e: Entry, ref: Ref): Transaction
  {
    var ty := EntryType(e.debit);
    Transaction(ref, e.date, e.date, e.narration, e.debit, e.credit, e.taxPct,
                EntryTax(e.debit, e.credit, e.taxPct), ty,
                if ty == Debit then Some(if e.investment then InvestmentDebit else OtherDebit) else None,
                if ty == Credit then Some(if e.investment then CreditInvestments else OtherCredit) else None,
                e.account, None)
  }

  /** Recording an entry: refuse two amounts or none, refuse a debit the main account cannot
      cover with its tax, otherwise write the transaction, move the main balance, add one
      unallocated allocation and, for an investment, a pending investment row. */
  function Record(t: Tables, e: Entry, ref: Ref, allocId: AllocId): Step<real>
  {
    var tax := EntryTax(e.debit, e.credit, e.taxPct);
    if e.debit > 0.0 && e.credit > 0.0 then Step(Err(InvalidAmount), t)
    else if e.debit == 0.0 && e.credit == 0.0 then Step(Err(InvalidAmount), t)
    else if e.debit > 0.0 && t.main < e.debit + tax then Step(Err(InsufficientFunds(MainAccount)), t)
    else
      var tx := EntryTransaction(e, ref);
      var amount := EntryAllocationAmount(e.debit, e.credit, e.taxPct);
      var main := t.main + EntryMainDelta(e.debit, e.credit, e.taxPct);
      Step(Ok(main),
           t.(main := main,
              transactions := t.transactions[ref := tx],
              allocations := t.allocations[allocId := Allocation(ref, None, amount, tx.txType, None)],
              investments := if e.investment then t.investments[ref := Investment(amount, Pending, None, allocId, None)]
                             else t.investments))
  }

  /** An entry succeeds exactly when it has one amount and, for a debit, the main account
      covers it with its tax; a refused entry changes nothing; an accepted one moves the main
      balance by the signed net amount and leaves it non-negative, and its allocation carries
      the amount that is still to be split. Exactly three rows are written: the transaction,
      its one unassigned allocation of the entry's direction and, for an investment, a pending
      investment of the same amount pointing at that allocation. */
  lemma RecordOutcome(t: Tables, e: Entry, ref: Ref, allocId: AllocId)
    requires EntryInForm(e) && t.main >= 0.0
    ensures var s := Record(t, e, ref, allocId);
      && (s.result.Ok? <==>
            EntryAmountsValid(e.debit, e.credit)
            && (e.debit > 0.0 ==> t.main >= e.debit + TaxAmount(e.debit, e.taxPct)))
      && (s.result.Err? ==> s.after == t)
      && (s.result.Ok? ==>
            && s.after.main == s.result.value == t.main + EntryMainDelta(e.debit, e.credit, e.taxPct)
            && s.after.main >= 0.0
            && s.after.depts == t.depts && s.after.statements == t.statements
            && s.after.transactions == t.transactions[ref := EntryTransaction(e, ref)]
            && s.after.allocations == t.allocations[allocId := Allocation(ref, None,
                 EntryAllocationAmount(e.debit, e.credit, e.taxPct), EntryType(e.debit), None)]
            && s.after.investments == (if e.investment
                 then t.investments[ref := Investment(EntryAllocationAmount(e.debit, e.credit, e.taxPct), Pending, None, allocId, None)]
                 else t.investments))
  {
    var s := Record(t, e, ref, allocId);
    if s.result.Ok? {
      EntryConservation(e.debit, e.credit, e.taxPct);
    }
  }

  lemma RecordPreservesConsistent(t: Tables, e: Entry, ref: Ref, allocId: AllocId)
    requires Consistent(t) && EntryInForm(e)
    requires ref !in t.transactions
    ensures Consistent(Record(t, e, ref, allocId).after)
  {
    var s := Record(t, e, ref, allocId);
    if s.result.Ok? {
      RecordOutcome(t, e, ref, allocId);
      var tx := EntryTransaction(e, ref);
      var amount := EntryAllocationAmount(e.debit, e.credit, e.taxPct);
      InsertPreservesLinks(t, s.after, tx, allocId, Allocation(ref, None, amount, tx.txType, None),
                           if e.investment then Some(Investment(amount, Pending, None, allocId, None)) else None);
    }
  }

  // ---- bulk import -----------------------------------------------------------------

  /** The reference numbers of the batch are new to the ledger and to each other, as the
      unique `ref_number` column demands. */
  predicate RefsFit(t: Tables, parsed: seq<Row>)
  {
    Distinct(Refs(parsed)) && forall k :: 0 <= k < |parsed| ==> parsed[k].ref !in t.transactions
  }

  /** The batch can be written: its statement id is new to the statements table (a primary key)
      and its reference numbers fit. */
  predicate BatchFits(t: Tables, parsed: seq<Row>, stmt: StatementId)
  {
    stmt !in t.statements && RefsFit(t, parsed)
  }

  /** Importing a statement: the first faulty row refuses the whole file; then the net effect
      on the main account must keep it non-negative; then every row becomes a transaction and
      an unallocated allocation under a new statement, all or nothing. */
  function Import(t: Tables, rows: seq<CsvRow>, parse: string -> Option<Day>, account: string,
                  stmt: StatementId, filename: string, ids: seq<AllocId>): Step<real>
    requires |ids| == |rows|
  {
    match FirstFault(rows, parse)
    case Some((k, f)) => Step(Err(BatchValidation(k, f)), t)
    case None =>
      var parsed := ParseAll(rows, parse);
      if t.main + NetChange(parsed) < 0.0 then Step(Err(InsufficientFunds(MainAccount)), t)
      else if !BatchFits(t, parsed, stmt) then Step(Err(IntegrityConflict), t)
      else
        Step(Ok(t.main + CommitNet(parsed)), Commit(t, parsed, account, stmt, filename, ids))
  }

  /** A refused import changes nothing; an accepted one moves the main account by exactly the
      net change the pre-check approved and leaves exactly the tables the commit writes. A batch of valid rows
      that the main account can absorb and that fits the tables is always accepted and committed. */
  lemma ImportOutcome(t: Tables, rows: seq<CsvRow>, parse: string -> Option<Day>, account: string,
                      stmt: StatementId, filename: string, ids: seq<AllocId>)
    requires |ids| == |rows|
    ensures var s := Import(t, rows, parse, account, stmt, filename, ids);
      && (s.result.Err? ==> s.after == t)
      && (s.result.Ok? ==>
            && AllRowsValid(rows, parse)
            && s.after.main == s.result.value == t.main + NetChange(ParseAll(rows, parse))
            && s.after.main >= 0.0
            && stmt !in t.statements && s.after.statements == t.statements[stmt := filename]
            && BatchFits(t, ParseAll(rows, parse), stmt)
            && s.after == Commit(t, ParseAll(rows, parse), account, stmt, filename, ids)
            && forall k :: 0 <= k < |rows| ==> rows[k].ref.value in s.after.transactions)
      && (!AllRowsValid(rows, parse) ==> s.result == Err(BatchValidation(FirstFault(rows, parse).value.0, FirstFault(rows, parse).value.1)))
      && (AllRowsValid(rows, parse) && t.main + NetChange(ParseAll(rows, parse)) >= 0.0
          && BatchFits(t, ParseAll(rows, parse), stmt) ==>
            s.result.Ok? && s.after == Commit(t, ParseAll(rows, parse), account, stmt, filename, ids))
  {
    var s := Import(t, rows, parse, account, stmt, filename, ids);
    if s.result.Ok? {
      var parsed := ParseAll(rows, parse);
      ParsedRowsOneSided(rows, parse);
      CommitMatchesPrecheck(parsed);
      forall k | 0 <= k < |rows|
        ensures rows[k].ref.value in s.after.transactions
      {
        BatchTransactionsKeys(parsed, account, stmt, parsed[k].ref);
      }
    }
  }

  /** The tables after a committed batch. */
  function Commit(t: Tables, parsed: seq<Row>, account: string, stmt: StatementId, filename: string,
                  ids: seq<AllocId>): Tables
    requires |ids| == |parsed|
  {
    t.(main := t.main + CommitNet(parsed),
       transactions := t.transactions + BatchTransactions(parsed, account, stmt),
       allocations := t.allocations + BatchAllocations(parsed, ids, stmt),
       statements := t.statements[stmt := filename])
  }

  lemma CommitKeepsLinks(t: Tables, parsed: seq<Row>, account: string, stmt: StatementId, filename: string,
                         ids: seq<AllocId>)
    requires TransactionsWellFormed(t) && AllocationsLinked(t) && InvestmentsLinked(t)
    requires RefsFit(t, parsed) && |ids| == |parsed| && Distinct(ids)
    ensures var u := Commit(t, parsed, account, stmt, filename, ids);
      TransactionsWellFormed(u) && AllocationsLinked(u) && InvestmentsLinked(u)
  {
    var u := Commit(t, parsed, account, stmt, filename, ids);
    var bt := BatchTransactions(parsed, account, stmt);
    var ba := BatchAllocations(parsed, ids, stmt);
    forall r | r in bt
      ensures bt[r].ref == r && KindsConsistent(bt[r]) && !IsInvestment(bt[r]) && r !in t.transactions
    {
      BatchTransactionsKeys(parsed, account, stmt, r);
      var k :| 0 <= k < |parsed| && parsed[k].ref == r;
      BatchTransactionsContent(parsed, account, stmt, k);
    }
    assert TransactionsWellFormed(u);
    assert InvestmentsLinked(u);
    forall id | id in u.allocations
      ensures AllocationLinked(u, u.allocations[id])
    {
      if id in ba {
        BatchAllocationsKeys(parsed, ids, stmt, id);
        var k :| 0 <= k < |ids| && ids[k] == id;
        BatchAllocationsContent(parsed, ids, stmt, k);
        BatchTransactionsContent(parsed, account, stmt, k);
      } else {
        assert AllocationLinked(t, t.allocations[id]);
      }
    }
  }

  /** One turn of the commit loop: the prefix functions grow by the next row. */
  lemma CommitStep(t: Tables, parsed: seq<Row>, ids: seq<AllocId>, account: string, stmt: StatementId, i: nat)
    requires |ids| == |parsed| && i < |parsed|
    ensures CommitNet(parsed[..i + 1]) == CommitNet(parsed[..i]) + RowDelta(parsed[i])
    ensures t.transactions + BatchTransactions(parsed[..i + 1], account, stmt)
      == (t.transactions + BatchTransactions(parsed[..i], account, stmt))[parsed[i].ref := RowTransaction(parsed[i], account, stmt)]
    ensures t.allocations + BatchAllocations(parsed[..i + 1], ids[..i + 1], stmt)
      == (t.allocations + BatchAllocations(parsed[..i], ids[..i], stmt))[ids[i] := RowAllocation(parsed[i], stmt)]
  {
    assert parsed[..i + 1][..i] == parsed[..i] && ids[..i + 1][..i] == ids[..i];
  }

  /** The commit loop meets a reference number already present: the batch does not fit. */
  lemma RefCollision(t: Tables, parsed: seq<Row>, account: string, stmt: StatementId, i: nat)
    requires i < |parsed|
    requires parsed[i].ref in t.transactions + BatchTransactions(parsed[..i], account, stmt)
    ensures !RefsFit(t, parsed)
  {
    if parsed[i].ref !in t.transactions {
      BatchTransactionsKeys(parsed[..i], account, stmt, parsed[i].ref);
      var k :| 0 <= k < i && parsed[..i][k].ref == parsed[i].ref;
      assert Refs(parsed)[k] == Refs(parsed)[i];
    }
  }

  /** The commit loop meets a new reference number: the rows so far still fit. */
  lemma RefsFitStep(t: Tables, parsed: seq<Row>, account: string, stmt: StatementId, i: nat)
    requires i < |parsed| && RefsFit(t, parsed[..i])
    requires parsed[i].ref !in t.transactions + BatchTransactions(parsed[..i], account, stmt)
    ensures RefsFit(t, parsed[..i + 1])
  {
    assert Refs(parsed[..i + 1]) == Refs(parsed[..i]) + [parsed[i].ref];
    forall k | 0 <= k < i
      ensures Refs(parsed[..i])[k] != parsed[i].ref
    {
      BatchTransactionsKeys(parsed[..i], account, stmt, parsed[i].ref);
    }
  }

  lemma ImportPreservesConsistent(t: Tables, rows: seq<CsvRow>, parse: string -> Option<Day>, account: string,
                                  stmt: StatementId, filename: string, ids: seq<AllocId>)
    requires Consistent(t) && |ids| == |rows| && Distinct(ids)
    ensures Consistent(Import(t, rows, parse, account, stmt, filename, ids).after)
  {
    var s := Import(t, rows, parse, account, stmt, filename, ids);
    if s.result.Ok? {
      ImportOutcome(t, rows, parse, account, stmt, filename, ids);
      var parsed := ParseAll(rows, parse);
      assert s.after == Commit(t, parsed, account, stmt, filename, ids);
      CommitKeepsLinks(t, parsed, account, stmt, filename, ids);
    }
  }

  // ---- splitting an allocation across departments --------------------------------

  /** What the allocation screens hand over: one entry per known department, each department
      once, no negative amount, and a fresh id for each entry's allocation row. */
  predicate SplitFits(t: Tables, split: Split, ids: seq<AllocId>)
  {
    && |ids| == |split|
    && Covers(t.depts, split) && Distinct(Depts(split)) && NonNegative(split)
    && Distinct(ids) && forall k :: 0 <= k < |ids| ==> ids[k] !in t.allocations
  }

  /** The writes of both allocation screens: the departments move, one assigned row per
      positive entry is added, and the unallocated row is deleted. */
  function Distribute(t: Tables, allocId: AllocId, split: Split, ids: seq<AllocId>): Tables
    requires allocId in t.allocations && |ids| == |split| && Covers(t.depts, split)
  {
    var a := t.allocations[allocId];
    t.(depts := ApplySplit(t.depts, split, a.txType),
       allocations := (t.allocations + SplitRows(a.treasuryRef, split, ids, a.txType)) - {allocId})
  }

  /** The general allocation screen. */
  function SplitPending(t: Tables, allocId: AllocId, split: Split, ids: seq<AllocId>): Step<()>
    requires |ids| == |split| && Covers(t.depts, split)
  {
    if allocId !in t.allocations || t.allocations[allocId].treasuryRef !in t.transactions then Step(Err(NotFound), t)
    else
      var a := t.allocations[allocId];
      if !PendingListed(a, t.transactions[a.treasuryRef]) then Step(Err(NotFound), t)
      else if Abs(Total(split) - a.amount) > Tolerance then Step(Err(AllocationMismatch), t)
      else match (if a.txType == Debit then ShortDept(t.depts, split) else None)
        case Some(d) => Step(Err(InsufficientFunds(Department(d))), t)
        case None => Step(Ok(()), Distribute(t, allocId, split, ids))
  }

  /** The investment allocation screen: as the general one but with an exact total, and the
      investment is attributed to the split's representative department. */
  function SplitInvestment(t: Tables, allocId: AllocId, split: Split, ids: seq<AllocId>): Step<()>
    requires |ids| == |split| && Covers(t.depts, split)
  {
    if allocId !in t.allocations || t.allocations[allocId].treasuryRef !in t.transactions then Step(Err(NotFound), t)
    else
      var a := t.allocations[allocId];
      var ref := a.treasuryRef;
      if !InvestmentListed(a, t.transactions[ref], ref in t.investments) then Step(Err(NotFound), t)
      else if Total(split) != a.amount then Step(Err(AllocationMismatch), t)
      else match (if a.txType == Debit then ShortDept(t.depts, split) else None)
        case Some(d) => Step(Err(InsufficientFunds(Department(d))), t)
        case None =>
          var d := Distribute(t, allocId, split, ids);
          match Representative(split)
          case None => Step(Ok(()), d)
          case Some(rep) =>
            Step(Ok(()), d.(investments := d.investments[ref := d.investments[ref].(department := Some(rep))]))
  }

  /** After a split, the departments named move together by the split's total (up for a
      credit, down for a debit), every other department keeps its balance, the unallocated
      row is gone and each positive entry has its own assigned row. */
  lemma DistributeEffect(t: Tables, allocId: AllocId, split: Split, ids: seq<AllocId>)
    requires allocId in t.allocations && SplitFits(t, split, ids)
    ensures var u := Distribute(t, allocId, split, ids);
      var a := t.allocations[allocId];
      && BalanceSum(u.depts, Depts(split)) == BalanceSum(t.depts, Depts(split)) + Signed(a.txType, Total(split))
      && (forall d :: d in t.depts && d !in Depts(split) ==> u.depts[d] == t.depts[d])
      && allocId !in u.allocations
      && (forall k :: 0 <= k < |split| && split[k].1 > 0.0 ==>
            ids[k] in u.allocations
            && u.allocations[ids[k]] == Allocation(a.treasuryRef, Some(split[k].0), split[k].1, a.txType, None))
  {
    var a := t.allocations[allocId];
    ApplySplitConserves(t.depts, split, a.txType);
    PositiveTotalIsTotal(split);
    forall d | d in t.depts && d !in Depts(split)
      ensures ApplySplit(t.depts, split, a.txType)[d] == t.depts[d]
    {
      ApplySplitUntouched(t.depts, split, a.txType, d);
    }
    forall k | 0 <= k < |split| && split[k].1 > 0.0
      ensures ids[k] in SplitRows(a.treasuryRef, split, ids, a.txType)
      ensures SplitRows(a.treasuryRef, split, ids, a.txType)[ids[k]]
        == Allocation(a.treasuryRef, Some(split[k].0), split[k].1, a.txType, None)
    {
      SplitRowsContent(a.treasuryRef, split, ids, a.txType, ids[k]);
    }
  }

  lemma DistributePreservesConsistent(t: Tables, allocId: AllocId, split: Split, ids: seq<AllocId>)
    requires Consistent(t) && allocId in t.allocations && SplitFits(t, split, ids)
    requires t.allocations[allocId].txType == Debit ==> Affordable(t.depts, split)
    ensures Consistent(Distribute(t, allocId, split, ids))
  {
    var a := t.allocations[allocId];
    var u := Distribute(t, allocId, split, ids);
    var rows := SplitRows(a.treasuryRef, split, ids, a.txType);
    ApplySplitSolvent(t.depts, split, a.txType);
    assert u.depts == ApplySplit(t.depts, split, a.txType);
    assert AllocationLinked(t, a);
    forall id | id in u.allocations
      ensures AllocationLinked(u, u.allocations[id])
    {
      if id in rows {
        SplitRowsContent(a.treasuryRef, split, ids, a.txType, id);
      } else {
        assert AllocationLinked(t, t.allocations[id]);
      }
    }
  }

  /** The general screen accepts a split exactly when the row is listed, the split is within
      the tolerance of its amount and, for a debit, every department covers its share; an
      accepted split is applied as `Distribute` describes and keeps the ledger consistent, and a
      refused one changes nothing. */
  lemma SplitPendingOutcome(t: Tables, allocId: AllocId, split: Split, ids: seq<AllocId>)
    requires Consistent(t) && SplitFits(t, split, ids)
    ensures var s := SplitPending(t, allocId, split, ids);
      && Consistent(s.after)
      && (s.result.Err? ==> s.after == t)
      && (s.result.Ok? <==>
            && allocId in t.allocations
            && t.allocations[allocId].treasuryRef in t.transactions
            && PendingListed(t.allocations[allocId], t.transactions[t.allocations[allocId].treasuryRef])
            && Abs(Total(split) - t.allocations[allocId].amount) <= Tolerance
            && (t.allocations[allocId].txType == Debit ==> Affordable(t.depts, split)))
      && (s.result.Ok? ==> s.after == Distribute(t, allocId, split, ids))
  {
    var s := SplitPending(t, allocId, split, ids);
    if s.result.Ok? {
      DistributePreservesConsistent(t, allocId, split, ids);
    }
  }

  /** The investment screen accepts a split exactly when the row is listed, the split totals its
      amount exactly and, for a debit, every department covers its share; a refused split
      changes nothing, and either way the ledger stays consistent. */
  lemma SplitInvestmentOutcome(t: Tables, allocId: AllocId, split: Split, ids: seq<AllocId>)
    requires Consistent(t) && SplitFits(t, split, ids)
    ensures var s := SplitInvestment(t, allocId, split, ids);
      && Consistent(s.after)
      && (s.result.Err? ==> s.after == t)
      && (s.result.Ok? <==>
            && allocId in t.allocations
            && t.allocations[allocId].treasuryRef in t.transactions
            && InvestmentListed(t.allocations[allocId], t.transactions[t.allocations[allocId].treasuryRef],
                                t.allocations[allocId].treasuryRef in t.investments)
            && Total(split) == t.allocations[allocId].amount
            && (t.allocations[allocId].txType == Debit ==> Affordable(t.depts, split)))
  {
    var s := SplitInvestment(t, allocId, split, ids);
    if s.result.Ok? {
      var a := t.allocations[allocId];
      DistributePreservesConsistent(t, allocId, split, ids);
      var d := Distribute(t, allocId, split, ids);
      InvestmentListedIff(a, t.transactions[a.treasuryRef], a.treasuryRef in t.investments);
      RepresentativeIsFirstEligible(split);
      match Representative(split)
      case None =>
      case Some(rep) =>
        var k :| 0 <= k < |split| && Eligible(split[k]) && split[k].0 == rep;
        assert rep in d.depts;
        assert InvestmentsLinked(s.after);
    }
  }

  /** An accepted investment split moves the departments and writes the rows as `Distribute`
      describes, touches no other table, and changes only the split investment, whose department
      becomes the representative when there is one; it keeps its amount. */
  lemma SplitInvestmentAttributes(t: Tables, allocId: AllocId, split: Split, ids: seq<AllocId>)
    requires SplitFits(t, split, ids)
    ensures var s := SplitInvestment(t, allocId, split, ids);
      s.result.Ok? ==>
      var ref := t.allocations[allocId].treasuryRef;
      var d := Distribute(t, allocId, split, ids);
      && s.after.main == t.main && s.after.depts == d.depts && s.after.allocations == d.allocations
      && s.after.transactions == t.transactions && s.after.statements == t.statements
      && ref in t.investments && s.after.investments.Keys == t.investments.Keys
      && (forall r :: r in t.investments && r != ref ==> s.after.investments[r] == t.investments[r])
      && s.after.investments[ref] == t.investments[ref].(department :=
           if Representative(split).Some? then Representative(split) else t.investments[ref].department)
  {
  }

  /** Each unallocated row of a consistent ledger is offered by exactly one of the two screens. */
  lemma EveryPendingRowOffered(t: Tables, allocId: AllocId)
    requires Consistent(t) && allocId in t.allocations && t.allocations[allocId].department.None?
    ensures var a := t.allocations[allocId];
      var tx := t.transactions[a.treasuryRef];
      PendingListed(a, tx) != InvestmentListed(a, tx, a.treasuryRef in t.investments)
  {
    var a := t.allocations[allocId];
    assert AllocationLinked(t, a);
    ScreensPartitionPending(a, t.transactions[a.treasuryRef], a.treasuryRef in t.investments);
  }

  // ---- confirming an investment -------------------------------------------------

  /** Confirming a pending, attributed investment: the deal terms are computed from its amount,
      the transaction's date as value date, the tenor and the rate, and it becomes confirmed. */
  function Confirm(t: Tables, ref: Ref, account: string, period: int, rate: real): Step<Quote>
  {
    if ref !in t.investments || ref !in t.transactions then Step(Err(NotFound), t)
    else
      var inv := t.investments[ref];
      if inv.status != Pending || inv.department.None? then Step(Err(NotFound), t)
      else
        var valueDate := t.transactions[ref].date;
        var q := ConfirmQuote(inv.amount, rate, period, valueDate);
        var terms := Terms(account, period, valueDate, rate, q.maturityDate, q.interest, q.withholding, q.maturityAmount);
        Step(Ok(q), t.(investments := t.investments[ref := inv.(status := Confirmed, terms := Some(terms))]))
  }

  /** Confirmation succeeds exactly for a pending, attributed investment with its transaction.
      It moves no money and touches no other row; the quote is that of the investment's amount
      at the transaction's date, the stored terms are the quote's figures, and a confirmed
      investment cannot be confirmed again. */
  lemma ConfirmOutcome(t: Tables, ref: Ref, account: string, period: int, rate: real, account2: string, period2: int, rate2: real)
    ensures var s := Confirm(t, ref, account, period, rate);
      && s.after.main == t.main && s.after.depts == t.depts && s.after.allocations == t.allocations
      && s.after.transactions == t.transactions && s.after.investments.Keys == t.investments.Keys
      && s.after.statements == t.statements
      && (forall r :: r in t.investments && r != ref ==> s.after.investments[r] == t.investments[r])
      && (s.result.Ok? <==>
            ref in t.investments && ref in t.transactions
            && t.investments[ref].status == Pending && t.investments[ref].department.Some?)
      && (s.result.Err? ==> s.after == t)
      && (s.result.Ok? ==>
            var q := s.result.value;
            var date := t.transactions[ref].date;
            && q == ConfirmQuote(t.investments[ref].amount, rate, period, date)
            && s.after.investments[ref] == t.investments[ref].(status := Confirmed,
                 terms := Some(Terms(account, period, date, rate, q.maturityDate, q.interest, q.withholding, q.maturityAmount)))
            && s.after.investments[ref].terms.value.maturityDate == date + period
            && Confirm(s.after, ref, account2, period2, rate2).result == Err(NotFound))
  {
  }

  lemma ConfirmPreservesConsistent(t: Tables, ref: Ref, account: string, period: int, rate: real)
    requires Consistent(t)
    ensures Consistent(Confirm(t, ref, account, period, rate).after)
  {
  }

  // ---- a department's own investment --------------------------------------------

  /** The fields of the department investment form. */
  datatype Deal = Deal(account: string, period: int, valueDate: Day, rate: real, amount: real, taxPct: real)

  predicate DealInForm(d: Deal)
  {
    d.period >= 1 && d.rate >= 0.0 && d.amount >= 0.0 && 0.0 <= d.taxPct <= 100.0
  }

  function DealTerms(d: Deal): Terms
  {
    var interest := Interest(d.amount, d.rate, d.period);
    Terms(d.account, d.period, d.valueDate, d.rate, d.valueDate + d.period, interest,
          Withholding(interest), DepartmentMaturityAmount(d.amount, interest))
  }

  /** A department invests from its own balance: the main account must cover the amount with
      its tax and the department the amount; both are debited, and a pending investment
      attributed to the department is written with an unallocated debit allocation and an
      investment debit transaction. */
  function DepartmentInvest(t: Tables, dept: DeptId, d: Deal, ref: Ref, allocId: AllocId): Step<Terms>
  {
    var tax := TaxAmount(d.amount, d.taxPct);
    if dept !in t.depts then Step(Err(NotFound), t)
    else if t.main < d.amount + tax then Step(Err(InsufficientFunds(MainAccount)), t)
    else if t.depts[dept] < d.amount then Step(Err(InsufficientFunds(Department(dept))), t)
    else
      var terms := DealTerms(d);
      var tx := Transaction(ref, d.valueDate, d.valueDate, "Investment: " + d.account, d.amount, 0.0, d.taxPct, tax,
                            Debit, Some(InvestmentDebit), None, d.account, None);
      Step(Ok(terms),
           t.(main := t.main - (d.amount + tax),
              depts := t.depts[dept := t.depts[dept] - d.amount],
              investments := t.investments[ref := Investment(d.amount, Pending, Some(dept), allocId, Some(terms))],
              allocations := t.allocations[allocId := Allocation(ref, None, d.amount, Debit, None)],
              transactions := t.transactions[ref := tx]))
  }

  /** The investment succeeds exactly when the department exists and both balances cover it;
      then the main account pays amount plus tax, the department pays the amount and no other
      department moves, and the terms mature to what confirmation would compute. The rows written
      are the pending investment attributed to the department with those terms, its unassigned
      debit allocation and an investment-debit transaction of the amount and its tax. */
  lemma DepartmentInvestOutcome(t: Tables, dept: DeptId, d: Deal, ref: Ref, allocId: AllocId)
    requires DealInForm(d)
    ensures var s := DepartmentInvest(t, dept, d, ref, allocId);
      var tax := TaxAmount(d.amount, d.taxPct);
      && (s.result.Ok? <==> dept in t.depts && t.main >= d.amount + tax && t.depts[dept] >= d.amount)
      && (s.result.Err? ==> s.after == t)
      && (s.result.Ok? ==>
            && s.after.main == t.main - d.amount - tax
            && s.after.depts.Keys == t.depts.Keys
            && s.after.depts[dept] == t.depts[dept] - d.amount
            && (forall o :: o in t.depts && o != dept ==> s.after.depts[o] == t.depts[o])
            && s.after.statements == t.statements
            && s.after.investments == t.investments[ref := Investment(d.amount, Pending, Some(dept), allocId, Some(s.result.value))]
            && s.after.allocations == t.allocations[allocId := Allocation(ref, None, d.amount, Debit, None)]
            && s.after.transactions == t.transactions[ref := Transaction(ref, d.valueDate, d.valueDate,
                 "Investment: " + d.account, d.amount, 0.0, d.taxPct, tax, Debit, Some(InvestmentDebit), None, d.account, None)]
            && s.result.value.maturityDate == d.valueDate + d.period
            && s.result.value.interest == ConfirmQuote(d.amount, d.rate, d.period, d.valueDate).interest
            && s.result.value.withholding == ConfirmQuote(d.amount, d.rate, d.period, d.valueDate).withholding
            && s.result.value.maturityAmount == ConfirmQuote(d.amount, d.rate, d.period, d.valueDate).maturityAmount)
  {
    DepartmentMaturityAgrees(d.amount, d.rate, d.period, d.valueDate);
  }

  lemma DepartmentInvestPreservesConsistent(t: Tables, dept: DeptId, d: Deal, ref: Ref, allocId: AllocId)
    requires Consistent(t) && DealInForm(d) && ref !in t.transactions
    ensures Consistent(DepartmentInvest(t, dept, d, ref, allocId).after)
  {
    var s := DepartmentInvest(t, dept, d, ref, allocId);
    if s.result.Ok? {
      var tax := TaxAmount(d.amount, d.taxPct);
      TaxBounds(d.amount, d.taxPct);
      var tx := Transaction(ref, d.valueDate, d.valueDate, "Investment: " + d.account, d.amount, 0.0, d.taxPct, tax,
                            Debit, Some(InvestmentDebit), None, d.account, None);
      InsertPreservesLinks(t, s.after, tx, allocId, Allocation(ref, None, d.amount, Debit, None),
                           Some(Investment(d.amount, Pending, Some(dept), allocId, Some(DealTerms(d)))));
    }
  }
}
