/** Reconciliation of recorded tax against tax expected from the tariff table, in the two
    variants the system has: the per-account reconciliation report and the tax verification
    of the latest statement. Neither changes the ledger. */
module Reconciliation {
  import opened LedgerTypes
  import opened Formulas

  /** A row of the taxes and tariffs table. */
  datatype Tariff = Tariff(description: string, rate: real)

  // ---- case-insensitive substring ------------------------------------------------

  function LowerChar(c: char): char
  {
    if 'A' <= c <= 'Z' then (c as int + 32) as char else c
  }

  function Lower(s: string): string
  {
    seq(|s|, i requires 0 <= i < |s| => LowerChar(s[i]))
  }

  /** `needle` occurs in `hay` starting at index `i`. */
  predicate OccursAt(hay: string, needle: string, i: int)
  {
    0 <= i && i + |needle| <= |hay| && hay[i..i + |needle|] == needle
  }

  /** Python's `needle in hay` on strings. */
  predicate Contains(hay: string, needle: string)
    decreases |hay|
  {
    OccursAt(hay, needle, 0) || (|hay| > 0 && Contains(hay[1..], needle))
  }

  /** The scan agrees with the plain definition of a substring. */
  lemma {:induction false} ContainsIffOccurs(hay: string, needle: string)
    ensures Contains(hay, needle) <==> exists i :: OccursAt(hay, needle, i)
    decreases |hay|
  {
    if |hay| > 0 {
      ContainsIffOccurs(hay[1..], needle);
      forall i | OccursAt(hay[1..], needle, i)
        ensures OccursAt(hay, needle, i + 1)
      {
        assert hay[i + 1..i + 1 + |needle|] == hay[1..][i..i + |needle|];
      }
      forall i | OccursAt(hay, needle, i) && i > 0
        ensures OccursAt(hay[1..], needle, i - 1)
      {
        assert hay[i..i + |needle|] == hay[1..][i - 1..i - 1 + |needle|];
      }
    } else {
      if exists i :: OccursAt(hay, needle, i) {
        var i :| OccursAt(hay, needle, i);
        assert i == 0;
      }
    }
  }

  /** A tariff applies when its description, lower-cased, is a substring of the lower-cased narration. */
  predicate Matches(t: Tariff, narration: string)
  {
    Contains(Lower(narration), Lower(t.description))
  }

  /** Index of the first tariff, in table order, that applies to the narration. */
  function FirstMatch(tariffs: seq<Tariff>, narration: string): (r: Option<nat>)
    ensures r.Some? ==> r.value < |tariffs| && Matches(tariffs[r.value], narration)
    ensures r.Some? ==> forall j :: 0 <= j < r.value ==> !Matches(tariffs[j], narration)
    ensures r.None? ==> forall j :: 0 <= j < |tariffs| ==> !Matches(tariffs[j], narration)
  {
    if |tariffs| == 0 then None
    else if Matches(tariffs[0], narration) then Some(0)
    else match FirstMatch(tariffs[1..], narration)
      case None => None
      case Some(k) => Some(k + 1)
  }

  // ---- reconciliation report -----------------------------------------------------

  /** The amount a row is taxed on: its debit if positive, otherwise its credit. */
  function RowAmount(t: Transaction): real
  {
    if t.debit > 0.0 then t.debit else t.credit
  }

  datatype Expectation = Expectation(expected: real, applied: string)

  /** Expected tax in the reconciliation report: the row's own percentage when positive,
      overridden by the first tariff that applies. */
  function ReconcileExpectation(t: Transaction, tariffs: seq<Tariff>): Expectation
  {
    var amount := RowAmount(t);
    match FirstMatch(tariffs, t.narration)
    case Some(i) => Expectation(TaxAmount(amount, tariffs[i].rate), tariffs[i].description)
    case None => Expectation(if t.taxPct > 0.0 then TaxAmount(amount, t.taxPct) else 0.0, "Transaction Tax")
  }

  function TaxDiff(t: Transaction, tariffs: seq<Tariff>): real
  {
    t.taxAmount - ReconcileExpectation(t, tariffs).expected
  }

  /** The ASCII characters Python's `str.strip()` removes: space, tab, line feed, vertical tab,
      form feed, carriage return and the four separators 0x1C to 0x1F. */
  predicate IsSpace(c: char)
  {
    c == ' ' || c == '\t' || c == '\n' || c == '\r' || c == '\U{B}' || c == '\U{C}'
    || ('\U{1C}' <= c <= '\U{1F}')
  }

  /** `not narration.strip()` */
  predicate Blank(s: string)
  {
    forall i :: 0 <= i < |s| ==> IsSpace(s[i])
  }

  predicate BothAmounts(t: Transaction)
  {
    t.debit > 0.0 && t.credit > 0.0
  }

  predicate NoAmount(t: Transaction)
  {
    t.debit == 0.0 && t.credit == 0.0
  }

  /** A row goes into the reconciliation report. */
  predicate Flagged(t: Transaction, tariffs: seq<Tariff>)
  {
    var invalid := BothAmounts(t) || NoAmount(t) || Blank(t.narration);
    invalid || Abs(TaxDiff(t, tariffs)) > Tolerance
  }

  datatype Reason = TaxMismatch | BothDebitAndCredit | NoDebitOrCredit | EmptyNarration

  function Reasons(t: Transaction, tariffs: seq<Tariff>): seq<Reason>
  {
    (if Abs(TaxDiff(t, tariffs)) > Tolerance then [TaxMismatch] else [])
    + (if BothAmounts(t) then [BothDebitAndCredit] else [])
    + (if NoAmount(t) then [NoDebitOrCredit] else [])
    + (if Blank(t.narration) then [EmptyNarration] else [])
  }

  /** A row is reported exactly when there is a reason to report it. */
  lemma FlaggedIffReasons(t: Transaction, tariffs: seq<Tariff>)
    ensures Flagged(t, tariffs) <==> Reasons(t, tariffs) != []
  {
  }

  datatype Discrepancy = Discrepancy(
    ref: Ref,
    date: Day,
    narration: string,
    debit: real,
    credit: real,
    actualTax: real,
    expectedTax: real,
    taxDiff: real,
    applied: string,
    reasons: seq<Reason>)

  function DiscrepancyOf(t: Transaction, tariffs: seq<Tariff>): Discrepancy
  {
    var e := ReconcileExpectation(t, tariffs);
    Discrepancy(t.ref, t.date, t.narration, t.debit, t.credit, t.taxAmount, e.expected,
                t.taxAmount - e.expected, e.applied, Reasons(t, tariffs))
  }

  /** The report: the flagged rows, in row order. */
  function ReportOf(rows: seq<Transaction>, tariffs: seq<Tariff>): seq<Discrepancy>
  {
    if |rows| == 0 then []
    else
      var last := rows[|rows| - 1];
      ReportOf(rows[..|rows| - 1], tariffs)
      + (if Flagged(last, tariffs) then [DiscrepancyOf(last, tariffs)] else [])
  }

  /** Runs the reconciliation over the transactions of a statement. */
  method Reconcile(rows: seq<Transaction>, tariffs: seq<Tariff>) returns (report: seq<Discrepancy>)
    ensures report == ReportOf(rows, tariffs)
  {
    report := [];
    var i := 0;
    while i < |rows|
      invariant 0 <= i <= |rows|
      invariant report == ReportOf(rows[..i], tariffs)
    {
      var t := rows[i];
      if Flagged(t, tariffs) {
        report := report + [DiscrepancyOf(t, tariffs)];
      }
      assert rows[..i + 1][..i] == rows[..i];
      i := i + 1;
    }
    assert rows[..|rows|] == rows;
  }

  /** The report holds one entry for each flagged row and nothing else. */
  lemma {:induction false} ReportMembers(rows: seq<Transaction>, tariffs: seq<Tariff>, d: Discrepancy)
    ensures d in ReportOf(rows, tariffs) <==>
      exists k :: 0 <= k < |rows| && Flagged(rows[k], tariffs) && d == DiscrepancyOf(rows[k], tariffs)
  {
    if |rows| > 0 {
      var init := rows[..|rows| - 1];
      ReportMembers(init, tariffs, d);
      if exists k :: 0 <= k < |init| && Flagged(init[k], tariffs) && d == DiscrepancyOf(init[k], tariffs) {
        var k :| 0 <= k < |init| && Flagged(init[k], tariffs) && d == DiscrepancyOf(init[k], tariffs);
        assert rows[k] == init[k];
      }
      if exists k :: 0 <= k < |rows| && Flagged(rows[k], tariffs) && d == DiscrepancyOf(rows[k], tariffs) {
        var k :| 0 <= k < |rows| && Flagged(rows[k], tariffs) && d == DiscrepancyOf(rows[k], tariffs);
        if k < |rows| - 1 {
          assert init[k] == rows[k];
        }
      }
    }
  }

  lemma {:induction false} ReportLength(rows: seq<Transaction>, tariffs: seq<Tariff>)
    ensures |ReportOf(rows, tariffs)| <= |rows|
  {
    if |rows| > 0 {
      ReportLength(rows[..|rows| - 1], tariffs);
    }
  }

  // ---- tax verification of the latest statement --------------------------------

  datatype Verification = Verification(expected: real, diff: real, applied: string)

  /** Expected tax in the verification: the first applying tariff; otherwise the row's own
      percentage when positive; otherwise the row keeps expected 0 and difference 0. */
  function VerifyRow(t: Transaction, tariffs: seq<Tariff>): Verification
  {
    var amount := RowAmount(t);
    match FirstMatch(tariffs, t.narration)
    case Some(i) =>
      var e := TaxAmount(amount, tariffs[i].rate);
      Verification(e, t.taxAmount - e, tariffs[i].description)
    case None =>
      if t.taxPct > 0.0 then
        var e := TaxAmount(amount, t.taxPct);
        Verification(e, t.taxAmount - e, "Transaction Tax")
      else Verification(0.0, 0.0, "")
  }

  predicate VerifyFlagged(t: Transaction, tariffs: seq<Tariff>)
  {
    Abs(VerifyRow(t, tariffs).diff) > Tolerance
  }

  datatype VerifiedRow = VerifiedRow(row: Transaction, check: Verification)

  function VerifyReportOf(rows: seq<Transaction>, tariffs: seq<Tariff>): seq<VerifiedRow>
  {
    if |rows| == 0 then []
    else
      var last := rows[|rows| - 1];
      VerifyReportOf(rows[..|rows| - 1], tariffs)
      + (if VerifyFlagged(last, tariffs) then [VerifiedRow(last, VerifyRow(last, tariffs))] else [])
  }

  /** Annotates each row with its expected tax and keeps those beyond the tolerance. */
  method VerifyTaxes(rows: seq<Transaction>, tariffs: seq<Tariff>) returns (flagged: seq<VerifiedRow>)
    ensures flagged == VerifyReportOf(rows, tariffs)
  {
    flagged := [];
    var i := 0;
    while i < |rows|
      invariant 0 <= i <= |rows|
      invariant flagged == VerifyReportOf(rows[..i], tariffs)
    {
      var t := rows[i];
      var check := VerifyRow(t, tariffs);
      if Abs(check.diff) > Tolerance {
        flagged := flagged + [VerifiedRow(t, check)];
      }
      assert rows[..i + 1][..i] == rows[..i];
      i := i + 1;
    }
    assert rows[..|rows|] == rows;
  }

  /** The verification keeps exactly the rows whose difference exceeds the tolerance. */
  lemma {:induction false} VerifyReportMembers(rows: seq<Transaction>, tariffs: seq<Tariff>, v: VerifiedRow)
    ensures v in VerifyReportOf(rows, tariffs) <==>
      exists k :: 0 <= k < |rows| && VerifyFlagged(rows[k], tariffs) && v == VerifiedRow(rows[k], VerifyRow(rows[k], tariffs))
  {
    if |rows| > 0 {
      var init := rows[..|rows| - 1];
      VerifyReportMembers(init, tariffs, v);
      if exists k :: 0 <= k < |init| && VerifyFlagged(init[k], tariffs) && v == VerifiedRow(init[k], VerifyRow(init[k], tariffs)) {
        var k :| 0 <= k < |init| && VerifyFlagged(init[k], tariffs) && v == VerifiedRow(init[k], VerifyRow(init[k], tariffs));
        assert rows[k] == init[k];
      }
      if exists k :: 0 <= k < |rows| && VerifyFlagged(rows[k], tariffs) && v == VerifiedRow(rows[k], VerifyRow(rows[k], tariffs)) {
        var k :| 0 <= k < |rows| && VerifyFlagged(rows[k], tariffs) && v == VerifiedRow(rows[k], VerifyRow(rows[k], tariffs));
        if k < |rows| - 1 {
          assert init[k] == rows[k];
        }
      }
    }
  }

  /** In the verification, a row that no tariff matches and whose own percentage is zero is
      never flagged, whatever tax it recorded. */
  lemma UnmatchedUntaxedNeverVerified(t: Transaction, tariffs: seq<Tariff>)
    requires forall j :: 0 <= j < |tariffs| ==> !Matches(tariffs[j], t.narration)
    requires t.taxPct <= 0.0
    ensures VerifyRow(t, tariffs).diff == 0.0
    ensures !VerifyFlagged(t, tariffs)
  {
  }

  /** Whenever a tariff applies or the row carries a positive percentage, both variants expect
      the same tax, so every row the verification flags is also in the reconciliation report. */
  lemma VerificationWithinReconciliation(t: Transaction, tariffs: seq<Tariff>)
    ensures FirstMatch(tariffs, t.narration).Some? || t.taxPct > 0.0 ==>
      VerifyRow(t, tariffs).expected == ReconcileExpectation(t, tariffs).expected
    ensures VerifyFlagged(t, tariffs) ==> Flagged(t, tariffs)
  {
  }

  /** The two variants part ways on an untaxed row no tariff matches: the reconciliation
      reports recorded tax above the tolerance, the verification does not. */
  lemma VariantsDisagreeOnUntaxedRows(t: Transaction, tariffs: seq<Tariff>)
    requires FirstMatch(tariffs, t.narration).None? && t.taxPct <= 0.0
    requires Abs(t.taxAmount) > Tolerance
    ensures Flagged(t, tariffs) && !VerifyFlagged(t, tariffs)
  {
  }

  /** Tariff precedence: with tariff VAT at 15%, a row narrated "VAT on fees" with its own
      5% is expected to carry 15% tax. */
  lemma TariffPrecedence(amount: real)
    requires amount > 0.0
    ensures var t := Transaction("R1", 0, 0, "VAT on fees", amount, 0.0, 5.0, 0.0, Debit,
                                 Some(OtherDebit), None, "CBZ Account One", None);
      ReconcileExpectation(t, [Tariff("VAT", 15.0)]) == Expectation(TaxAmount(amount, 15.0), "VAT")
  {
    var narration := "VAT on fees";
    assert Lower(narration)[0..3] == "vat";
    assert Lower("VAT") == "vat";
    assert OccursAt(Lower(narration), Lower("VAT"), 0);
    assert Matches(Tariff("VAT", 15.0), narration);
  }
}
