/** The closed-form arithmetic of the ledger: tax on an amount, the effect of a single
    transaction entry on the main account, and the interest, withholding and maturity
    figures of a fixed-term investment. */
module Formulas {
  import opened LedgerTypes

  /** Tolerance used when comparing amounts (split sums, recorded against expected tax). */
  const Tolerance: real := 0.01
  /** Share of interest withheld as tax. */
  const WithholdingRate: real := 0.2
  const YearDays: real := 365.0

  function Abs(x: real): real
  {
    if x < 0.0 then -x else x
  }

  /** `amount * (tax_percentage / 100)` */
  function TaxAmount(amount: real, pct: real): real
  {
    amount * (pct / 100.0)
  }

  lemma TaxBounds(amount: real, pct: real)
    requires amount >= 0.0 && 0.0 <= pct <= 100.0
    ensures 0.0 <= TaxAmount(amount, pct) <= amount
  {
    assert amount * (pct / 100.0) <= amount * 1.0;
  }

  // ---- single transaction entry -------------------------------------------------

  /** Debit and credit as typed into the entry form are acceptable: exactly one is positive. */
  predicate EntryAmountsValid(debit: real, credit: real)
  {
    !(debit > 0.0 && credit > 0.0) && !(debit == 0.0 && credit == 0.0)
  }

  function EntryType(debit: real): TxType
  {
    if debit > 0.0 then Debit else Credit
  }

  /** Tax of an entry: on the debit when there is one, otherwise on the credit. */
  function EntryTax(debit: real, credit: real, pct: real): real
  {
    if debit > 0.0 then TaxAmount(debit, pct)
    else if credit > 0.0 then TaxAmount(credit, pct)
    else 0.0
  }

  /** Signed change the entry makes to the main balance. */
  function EntryMainDelta(debit: real, credit: real, pct: real): real
  {
    var tax := EntryTax(debit, credit, pct);
    if debit > 0.0 then -(debit + tax) else credit - tax
  }

  /** Amount of the unallocated allocation the entry creates. */
  function EntryAllocationAmount(debit: real, credit: real, pct: real): real
  {
    if debit > 0.0 then debit else credit - EntryTax(debit, credit, pct)
  }

  /** A debit takes the allocated amount plus its tax out of the main account; a credit puts
      in exactly the amount that is then allocated, which is the credit less its tax and
      never more than the credit. */
  lemma EntryConservation(debit: real, credit: real, pct: real)
    requires debit >= 0.0 && credit >= 0.0 && 0.0 <= pct <= 100.0
    requires EntryAmountsValid(debit, credit)
    ensures EntryType(debit) == Debit ==>
      EntryMainDelta(debit, credit, pct)
        == -(EntryAllocationAmount(debit, credit, pct) + TaxAmount(debit, pct))
    ensures EntryType(debit) == Credit ==>
      && EntryMainDelta(debit, credit, pct) == EntryAllocationAmount(debit, credit, pct)
      && EntryMainDelta(debit, credit, pct) == credit - TaxAmount(credit, pct)
      && 0.0 <= EntryMainDelta(debit, credit, pct) <= credit
  {
    if debit <= 0.0 {
      TaxBounds(credit, pct);
    }
  }

  // ---- investments ---------------------------------------------------------------

  /** Simple interest over `period` days: `principal * rate * period / (100 * 365)`. */
  function Interest(principal: real, rate: real, period: int): real
  {
    principal * rate * (period as real) / (100.0 * YearDays)
  }

  function Withholding(interest: real): real
  {
    interest * WithholdingRate
  }

  /** Annualised after-tax yield in percent; reported as 0 when principal or period is not positive. */
  function AfterTaxYield(netInterest: real, principal: real, period: int): real
  {
    if period > 0 && principal > 0.0 then (netInterest / principal) * (YearDays / period as real) * 100.0
    else 0.0
  }

  /** The figures of a deal note at confirmation. */
  datatype Quote = Quote(
    interest: real,
    withholding: real,
    netInterest: real,
    grossMaturity: real,
    maturityAmount: real,
    afterTaxYield: real,
    profitLoss: real,
    maturityDate: Day)

  function ConfirmQuote(principal: real, rate: real, period: int, valueDate: Day): Quote
  {
    var interest := Interest(principal, rate, period);
    var withholding := Withholding(interest);
    var net := interest - withholding;
    var stored := principal + net;
    Quote(interest, withholding, net, principal + interest, stored,
          AfterTaxYield(net, principal, period), stored - principal, valueDate + period)
  }

  /** The department self-service path writes the maturity amount as
      `amount + interest - withholding_tax`. */
  function DepartmentMaturityAmount(principal: real, interest: real): real
  {
    principal + interest - Withholding(interest)
  }

  /** The stored maturity amount is the gross maturity value less the 20% withholding, the
      profit is four fifths of the interest, and maturity falls `period` days after the value date. */
  lemma QuoteBreakdown(principal: real, rate: real, period: int, valueDate: Day)
    ensures var q := ConfirmQuote(principal, rate, period, valueDate);
      && q.withholding + q.netInterest == q.interest
      && q.netInterest == 0.8 * q.interest
      && q.maturityAmount == q.grossMaturity - q.withholding
      && q.profitLoss == q.netInterest
      && q.maturityDate - valueDate == period
  {
  }

  /** With a non-negative rate, the investor gets at least the principal back and at most
      the gross maturity value. */
  lemma QuoteBounds(principal: real, rate: real, period: int, valueDate: Day)
    requires principal >= 0.0 && rate >= 0.0 && period >= 1
    ensures var q := ConfirmQuote(principal, rate, period, valueDate);
      && q.interest >= 0.0
      && principal <= q.maturityAmount <= q.grossMaturity
      && q.profitLoss >= 0.0
  {
    var p := period as real;
    assert principal * rate >= 0.0;
    assert principal * rate * p >= 0.0;
  }

  /** Whatever the principal and tenor, the after-tax yield is 80% of the nominal rate. */
  lemma YieldIsFourFifthsOfRate(principal: real, rate: real, period: int, valueDate: Day)
    requires principal > 0.0 && period >= 1
    ensures ConfirmQuote(principal, rate, period, valueDate).afterTaxYield == 0.8 * rate
  {
    var p := period as real;
    var interest := Interest(principal, rate, period);
    var net := interest - Withholding(interest);
    assert net == 0.8 * interest;
    assert interest / principal == rate * p / 36500.0;
    assert net / principal == 0.8 * (rate * p / 36500.0);
    assert (net / principal) * (YearDays / p) == 0.8 * rate / 100.0;
  }

  /** P = 1000, r = 10%, 365 days: interest 100, withholding 20, net 80, gross 1100,
      stored maturity 1080, after-tax yield 8%, profit 80. */
  lemma FullYearDeal(valueDate: Day)
    ensures ConfirmQuote(1000.0, 10.0, 365, valueDate)
      == Quote(100.0, 20.0, 80.0, 1100.0, 1080.0, 8.0, 80.0, valueDate + 365)
  {
  }

  /** The department path's maturity formula gives the same figure as confirmation. */
  lemma DepartmentMaturityAgrees(principal: real, rate: real, period: int, valueDate: Day)
    ensures DepartmentMaturityAmount(principal, Interest(principal, rate, period))
      == ConfirmQuote(principal, rate, period, valueDate).maturityAmount
  {
  }
}
