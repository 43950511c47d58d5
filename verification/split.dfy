/** Splitting an unallocated amount across departments: the amounts typed in per department,
    the balance movements they cause, the allocation rows they create, the overdraft pre-check
    and the department an investment is attributed to. */
module Split {
  import opened LedgerTypes

  /** One amount per department, in the order the departments are listed. */
  type Split = seq<(DeptId, real)>

  function Total(split: Split): real
  {
    if |split| == 0 then 0.0 else Total(split[..|split| - 1]) + split[|split| - 1].1
  }

  function Depts(split: Split): (ds: seq<DeptId>)
    ensures |ds| == |split| && forall k :: 0 <= k < |split| ==> ds[k] == split[k].0
  {
    seq(|split|, k requires 0 <= k < |split| => split[k].0)
  }

  /** Every department named by the split is known. */
  predicate Covers(depts: map<DeptId, real>, split: Split)
  {
    forall k :: 0 <= k < |split| ==> split[k].0 in depts
  }

  /** A credit adds to a department's balance, a debit takes away. */
  function Signed(t: TxType, x: real): real
  {
    if t == Credit then x else -x
  }

  /** Balances after the allocation loop: each entry with a positive amount moves its
      department's balance by that amount, in the direction of the transaction. */
  function ApplySplit(depts: map<DeptId, real>, split: Split, t: TxType): (r: map<DeptId, real>)
    requires Covers(depts, split)
    ensures r.Keys == depts.Keys
  {
    if |split| == 0 then depts
    else
      var n := |split| - 1;
      var prev := ApplySplit(depts, split[..n], t);
      var (d, x) := split[n];
      if x > 0.0 then prev[d := prev[d] + Signed(t, x)] else prev
  }

  /** A department the split does not name keeps its balance. */
  lemma {:induction false} ApplySplitUntouched(depts: map<DeptId, real>, split: Split, t: TxType, d: DeptId)
    requires Covers(depts, split) && d in depts && d !in Depts(split)
    ensures ApplySplit(depts, split, t)[d] == depts[d]
  {
    if |split| > 0 {
      var n := |split| - 1;
      assert Depts(split[..n]) == Depts(split)[..n];
      ApplySplitUntouched(depts, split[..n], t, d);
    }
  }

  /** With each department named once, a department moves by exactly its own entry. */
  lemma {:induction false} ApplySplitEffect(depts: map<DeptId, real>, split: Split, t: TxType, k: nat)
    requires Covers(depts, split) && Distinct(Depts(split)) && k < |split|
    ensures ApplySplit(depts, split, t)[split[k].0]
      == depts[split[k].0] + (if split[k].1 > 0.0 then Signed(t, split[k].1) else 0.0)
  {
    var n := |split| - 1;
    assert Depts(split[..n]) == Depts(split)[..n];
    if k < n {
      assert split[..n][k] == split[k];
      ApplySplitEffect(depts, split[..n], t, k);
      assert Depts(split)[k] != Depts(split)[n];
    } else {
      assert split[k].0 !in Depts(split[..n]) by {
        forall j | 0 <= j < n
          ensures Depts(split[..n])[j] != split[k].0
        {
          assert Depts(split)[j] != Depts(split)[n];
        }
      }
      ApplySplitUntouched(depts, split[..n], t, split[k].0);
    }
  }

  // ---- conservation -------------------------------------------------------------

  /** Sum of the positive entries: what the allocation loop actually moves. */
  function PositiveTotal(split: Split): real
  {
    if |split| == 0 then 0.0
    else PositiveTotal(split[..|split| - 1]) + (if split[|split| - 1].1 > 0.0 then split[|split| - 1].1 else 0.0)
  }

  predicate NonNegative(split: Split)
  {
    forall k :: 0 <= k < |split| ==> split[k].1 >= 0.0
  }

  /** With no negative entries, the zero entries the loop skips change nothing. */
  lemma {:induction false} PositiveTotalIsTotal(split: Split)
    requires NonNegative(split)
    ensures PositiveTotal(split) == Total(split)
  {
    if |split| > 0 {
      PositiveTotalIsTotal(split[..|split| - 1]);
    }
  }

  /** Sum of the balances of a list of departments. */
  function BalanceSum(depts: map<DeptId, real>, ds: seq<DeptId>): real
    requires forall k :: 0 <= k < |ds| ==> ds[k] in depts
  {
    if |ds| == 0 then 0.0 else BalanceSum(depts, ds[..|ds| - 1]) + depts[ds[|ds| - 1]]
  }

  lemma {:induction false} BalanceSumFrame(depts: map<DeptId, real>, ds: seq<DeptId>, d: DeptId, v: real)
    requires forall k :: 0 <= k < |ds| ==> ds[k] in depts
    requires d !in ds
    ensures BalanceSum(depts[d := v], ds) == BalanceSum(depts, ds)
  {
    if |ds| > 0 {
      BalanceSumFrame(depts, ds[..|ds| - 1], d, v);
    }
  }

  /** Taken together, the departments of the split move by exactly the amount allocated:
      up by it for a credit, down by it for a debit. */
  lemma {:induction false} ApplySplitConserves(depts: map<DeptId, real>, split: Split, t: TxType)
    requires Covers(depts, split) && Distinct(Depts(split))
    ensures BalanceSum(ApplySplit(depts, split, t), Depts(split))
      == BalanceSum(depts, Depts(split)) + Signed(t, PositiveTotal(split))
  {
    if |split| > 0 {
      var n := |split| - 1;
      var init := split[..n];
      var prev := ApplySplit(depts, init, t);
      var (d, x) := split[n];
      assert Depts(init) == Depts(split)[..n];
      assert Depts(split) == Depts(init) + [d];
      assert d !in Depts(init) by {
        forall j | 0 <= j < n
          ensures Depts(init)[j] != d
        {
          assert Depts(split)[j] != Depts(split)[n];
        }
      }
      ApplySplitConserves(depts, init, t);
      ApplySplitUntouched(depts, init, t, d);
      var after := ApplySplit(depts, split, t);
      if x > 0.0 {
        BalanceSumFrame(prev, Depts(init), d, prev[d] + Signed(t, x));
      }
      assert BalanceSum(after, Depts(split)) == BalanceSum(after, Depts(init)) + after[d];
      assert BalanceSum(depts, Depts(split)) == BalanceSum(depts, Depts(init)) + depts[d];
    }
  }

  // ---- the overdraft pre-check --------------------------------------------------

  /** A debit entry the department cannot cover. */
  predicate Short(depts: map<DeptId, real>, e: (DeptId, real))
    requires e.0 in depts
  {
    e.1 > 0.0 && depts[e.0] < e.1
  }

  predicate Affordable(depts: map<DeptId, real>, split: Split)
    requires Covers(depts, split)
  {
    forall k :: 0 <= k < |split| ==> !Short(depts, split[k])
  }

  /** Index of the first entry its department cannot cover. */
  function FirstShortfall(depts: map<DeptId, real>, split: Split): (r: Option<nat>)
    requires Covers(depts, split)
    ensures r.None? <==> Affordable(depts, split)
    ensures r.Some? ==>
      && r.value < |split| && Short(depts, split[r.value])
      && forall j :: 0 <= j < r.value ==> !Short(depts, split[j])
  {
    if |split| == 0 then None
    else if Short(depts, split[0]) then Some(0)
    else match FirstShortfall(depts, split[1..])
      case None => None
      case Some(k) => Some(k + 1)
  }

  /** The department of the first entry it cannot cover. */
  function ShortDept(depts: map<DeptId, real>, split: Split): Option<DeptId>
    requires Covers(depts, split)
  {
    match FirstShortfall(depts, split)
    case None => None
    case Some(k) => Some(split[k].0)
  }

  /** The balance check made before an investment debit is split: the first department
      whose balance is below its share, if any. */
  method FindShortfall(depts: map<DeptId, real>, split: Split) returns (short: Option<DeptId>)
    requires Covers(depts, split)
    ensures short == ShortDept(depts, split)
  {
    var i := 0;
    while i < |split|
      invariant 0 <= i <= |split|
      invariant forall j :: 0 <= j < i ==> !Short(depts, split[j])
    {
      var (d, x) := split[i];
      if x > 0.0 && depts[d] < x {
        return Some(d);
      }
      i := i + 1;
    }
    return None;
  }

  /** An affordable debit split, or any credit split without negative entries, leaves every
      department with a non-negative balance. */
  lemma ApplySplitSolvent(depts: map<DeptId, real>, split: Split, t: TxType)
    requires Covers(depts, split) && Distinct(Depts(split)) && NonNegative(split)
    requires forall d :: d in depts ==> depts[d] >= 0.0
    requires t == Debit ==> Affordable(depts, split)
    ensures var after := ApplySplit(depts, split, t);
      forall d :: d in after ==> after[d] >= 0.0
  {
    var after := ApplySplit(depts, split, t);
    forall d | d in after
      ensures after[d] >= 0.0
    {
      if k :| 0 <= k < |split| && split[k].0 == d {
        ApplySplitEffect(depts, split, t, k);
        if t == Debit {
          assert !Short(depts, split[k]);
        }
      } else {
        ApplySplitUntouched(depts, split, t, d);
      }
    }
  }

  // ---- rows written -------------------------------------------------------------

  /** The allocation rows the loop inserts: one per positive entry, under that entry's id. */
  function SplitRows(ref: Ref, split: Split, ids: seq<AllocId>, t: TxType): map<AllocId, Allocation>
    requires |ids| == |split|
  {
    if |split| == 0 then map[]
    else
      var n := |split| - 1;
      var prev := SplitRows(ref, split[..n], ids[..n], t);
      if split[n].1 > 0.0 then prev[ids[n] := Allocation(ref, Some(split[n].0), split[n].1, t, None)] else prev
  }

  /** The rows written are exactly the positive entries, each assigned to its department. */
  lemma {:induction false} SplitRowsContent(ref: Ref, split: Split, ids: seq<AllocId>, t: TxType, id: AllocId)
    requires |ids| == |split| && Distinct(ids)
    ensures id in SplitRows(ref, split, ids, t) <==>
      exists k :: 0 <= k < |split| && ids[k] == id && split[k].1 > 0.0
    ensures forall k :: 0 <= k < |split| && ids[k] == id && split[k].1 > 0.0 ==>
      SplitRows(ref, split, ids, t)[id] == Allocation(ref, Some(split[k].0), split[k].1, t, None)
  {
    if |split| > 0 {
      var n := |split| - 1;
      SplitRowsContent(ref, split[..n], ids[..n], t, id);
      forall k | 0 <= k < n
        ensures split[..n][k] == split[k] && ids[..n][k] == ids[k]
      {
      }
      forall k | 0 <= k < n
        ensures ids[k] != ids[n]
      {
      }
    }
  }

  /** One turn of an allocation loop: the department of entry `i` still has its original
      balance, and the balance map and the rows grow by that entry alone. */
  lemma SplitStep(depts: map<DeptId, real>, allocs: map<AllocId, Allocation>, ref: Ref, split: Split,
                  ids: seq<AllocId>, t: TxType, i: nat)
    requires Covers(depts, split) && Distinct(Depts(split)) && |ids| == |split| && i < |split|
    ensures split[i].0 in depts
    ensures ApplySplit(depts, split[..i], t)[split[i].0] == depts[split[i].0]
    ensures split[i].1 > 0.0 ==>
      ApplySplit(depts, split[..i + 1], t)
        == ApplySplit(depts, split[..i], t)[split[i].0 := ApplySplit(depts, split[..i], t)[split[i].0] + Signed(t, split[i].1)]
    ensures split[i].1 <= 0.0 ==> ApplySplit(depts, split[..i + 1], t) == ApplySplit(depts, split[..i], t)
    ensures split[i].1 > 0.0 ==>
      allocs + SplitRows(ref, split[..i + 1], ids[..i + 1], t)
        == (allocs + SplitRows(ref, split[..i], ids[..i], t))[ids[i] := Allocation(ref, Some(split[i].0), split[i].1, t, None)]
    ensures split[i].1 <= 0.0 ==>
      allocs + SplitRows(ref, split[..i + 1], ids[..i + 1], t) == allocs + SplitRows(ref, split[..i], ids[..i], t)
  {
    assert split[..i + 1][..i] == split[..i] && ids[..i + 1][..i] == ids[..i];
    var d := split[i].0;
    assert d !in Depts(split[..i]) by {
      forall j | 0 <= j < i
        ensures Depts(split[..i])[j] != d
      {
        assert Depts(split)[j] != Depts(split)[i];
      }
    }
    ApplySplitUntouched(depts, split[..i], t, d);
  }

  /** The loop's in-line check stops at the first entry its department cannot cover. */
  lemma ShortfallAt(depts: map<DeptId, real>, split: Split, i: nat)
    requires Covers(depts, split) && i < |split|
    requires FirstShortfall(depts, split).Some? ==> i <= FirstShortfall(depts, split).value
    requires Short(depts, split[i])
    ensures FirstShortfall(depts, split) == Some(i)
  {
    assert !Affordable(depts, split);
  }

  // ---- the allocation loops ------------------------------------------------------

  /** The loop of the general allocation screen, over the balances and the allocations table
      as the transaction block sees them: for each positive entry, a debit its department
      cannot cover stops the block; otherwise the row is written and the department moves. */
  method SplitChecked(depts: map<DeptId, real>, allocations: map<AllocId, Allocation>, ref: Ref,
                      split: Split, ids: seq<AllocId>, t: TxType)
    returns (short: Option<DeptId>, balances: map<DeptId, real>, allocs: map<AllocId, Allocation>)
    requires Covers(depts, split) && Distinct(Depts(split)) && |ids| == |split|
    ensures short == (if t == Debit then ShortDept(depts, split) else None)
    ensures short.None? ==>
      balances == ApplySplit(depts, split, t) && allocs == allocations + SplitRows(ref, split, ids, t)
  {
    balances, allocs := depts, allocations;
    var i := 0;
    while i < |split|
      invariant 0 <= i <= |split|
      invariant balances == ApplySplit(depts, split[..i], t)
      invariant allocs == allocations + SplitRows(ref, split[..i], ids[..i], t)
      invariant t == Debit && FirstShortfall(depts, split).Some? ==> i <= FirstShortfall(depts, split).value
    {
      var d, x := split[i].0, split[i].1;
      SplitStep(depts, allocations, ref, split, ids, t, i);
      if x > 0.0 {
        if t == Debit && balances[d] < x {
          ShortfallAt(depts, split, i);
          return Some(d), balances, allocs;
        }
        allocs := allocs[ids[i] := Allocation(ref, Some(d), x, t, None)];
        balances := balances[d := balances[d] + Signed(t, x)];
      }
      i := i + 1;
    }
    assert split[..|split|] == split && ids[..|ids|] == ids;
    return None, balances, allocs;
  }

  /** The loop of the investment allocation screen: every positive entry writes its row and
      moves its department, and the first one with a non-empty id becomes the representative
      (the empty id stands for "none yet", as a falsy id does). */
  method SplitAttributed(depts: map<DeptId, real>, allocations: map<AllocId, Allocation>, ref: Ref,
                         split: Split, ids: seq<AllocId>, t: TxType)
    returns (rep: DeptId, balances: map<DeptId, real>, allocs: map<AllocId, Allocation>)
    requires Covers(depts, split) && Distinct(Depts(split)) && |ids| == |split|
    ensures balances == ApplySplit(depts, split, t) && allocs == allocations + SplitRows(ref, split, ids, t)
    ensures rep == (match Representative(split) case None => "" case Some(d) => d)
  {
    rep := "";
    balances, allocs := depts, allocations;
    var i := 0;
    while i < |split|
      invariant 0 <= i <= |split|
      invariant balances == ApplySplit(depts, split[..i], t)
      invariant allocs == allocations + SplitRows(ref, split[..i], ids[..i], t)
      invariant rep == (match Representative(split[..i]) case None => "" case Some(d) => d)
    {
      var d, x := split[i].0, split[i].1;
      SplitStep(depts, allocations, ref, split, ids, t, i);
      RepresentativeStep(split, i);
      if x > 0.0 {
        if rep == "" {
          rep := d;
        }
        allocs := allocs[ids[i] := Allocation(ref, Some(d), x, t, None)];
        balances := balances[d := balances[d] + Signed(t, x)];
      }
      i := i + 1;
    }
    assert split[..|split|] == split && ids[..|ids|] == ids;
  }

  // ---- the representative department --------------------------------------------

  /** An entry that can become the investment's department: a positive amount under an id
      that is not empty (an empty id is falsy and is passed over). */
  predicate Eligible(e: (DeptId, real))
  {
    e.1 > 0.0 && e.0 != ""
  }

  /** The department an allocated investment is attributed to, entry by entry: once chosen it
      stays, otherwise an eligible entry becomes it. */
  function Representative(split: Split): (r: Option<DeptId>)
    ensures r.Some? ==> r.value != ""
  {
    if |split| == 0 then None
    else
      var n := |split| - 1;
      var prev := Representative(split[..n]);
      if prev.Some? then prev
      else if Eligible(split[n]) then Some(split[n].0)
      else None
  }

  /** The representative is the first eligible entry, and there is none exactly when no entry
      is eligible. */
  lemma {:induction false} RepresentativeIsFirstEligible(split: Split)
    ensures Representative(split).None? <==> forall k :: 0 <= k < |split| ==> !Eligible(split[k])
    ensures Representative(split).Some? ==>
      exists k :: 0 <= k < |split| && Eligible(split[k]) && split[k].0 == Representative(split).value &&
        forall j :: 0 <= j < k ==> !Eligible(split[j])
  {
    if |split| > 0 {
      var n := |split| - 1;
      RepresentativeIsFirstEligible(split[..n]);
      assert forall k :: 0 <= k < n ==> split[..n][k] == split[k];
      if Representative(split[..n]).Some? {
        var k :| 0 <= k < n && Eligible(split[..n][k]) && split[..n][k].0 == Representative(split).value &&
          forall j :: 0 <= j < k ==> !Eligible(split[..n][j]);
        assert Eligible(split[k]) && forall j :: 0 <= j < k ==> !Eligible(split[j]);
      } else if Eligible(split[n]) {
        assert split[n].0 == Representative(split).value;
      }
    }
  }

  /** One more entry: the representative stays once chosen, else the entry becomes it if eligible. */
  lemma RepresentativeStep(split: Split, i: nat)
    requires i < |split|
    ensures Representative(split[..i + 1]) ==
      if Representative(split[..i]).Some? then Representative(split[..i])
      else if Eligible(split[i]) then Some(split[i].0)
      else None
  {
    assert split[..i + 1][..i] == split[..i];
  }
}
