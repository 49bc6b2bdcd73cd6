/** The read side of the dashboards blueprint (modules/dashboards/__init__.py): monthly sums,
    percentage of goal, and the branch-specific commission and bonus of `seller_dashboard`. */
module Dashboards {
  import opened Wrappers
  import opened Domain
  import Seqs
  import opened TextUtils
  import opened Sales
  import opened Goals

  // ---- monthly sums (lines 25-46, 125-146) ----

  /** `SELECT SUM(amount) ... WHERE user_id = ? AND <date in (year, month)>`; a SUM over no row is
      NULL and the handler reads it as 0. A NULL owner never matches. */
  function SellerMonthTotal(rows: seq<Sale>, sellerId: nat, year: int, month: int): real {
    if rows == [] then 0.0
    else
      var n := |rows| - 1;
      SellerMonthTotal(rows[..n], sellerId, year, month)
        + (if rows[n].userId == Some(sellerId) && InMonth(rows[n].date, year, month) then rows[n].amount else 0.0)
  }

  /** The same sum over the sales of every owner. */
  function CompanyMonthTotal(rows: seq<Sale>, year: int, month: int): real {
    if rows == [] then 0.0
    else
      var n := |rows| - 1;
      CompanyMonthTotal(rows[..n], year, month) + (if InMonth(rows[n].date, year, month) then rows[n].amount else 0.0)
  }

  /** A seller without sales in the month has a total of 0. */
  lemma {:induction false} SellerTotalWithoutSales(rows: seq<Sale>, sellerId: nat, year: int, month: int)
    requires forall s :: s in rows ==> s.userId != Some(sellerId) || !InMonth(s.date, year, month)
    ensures SellerMonthTotal(rows, sellerId, year, month) == 0.0
  {
    if rows != [] {
      var n := |rows| - 1;
      assert rows[n] in rows;
      assert forall s :: s in rows[..n] ==> s in rows;
      SellerTotalWithoutSales(rows[..n], sellerId, year, month);
    }
  }

  /** With non-negative amounts, the company total is at least any seller's total. */
  lemma {:induction false} CompanyTotalCoversSeller(rows: seq<Sale>, sellerId: nat, year: int, month: int)
    requires forall s :: s in rows ==> s.amount >= 0.0
    ensures SellerMonthTotal(rows, sellerId, year, month) <= CompanyMonthTotal(rows, year, month)
  {
    if rows != [] {
      var n := |rows| - 1;
      assert rows[n] in rows;
      assert forall s :: s in rows[..n] ==> s in rows;
      CompanyTotalCoversSeller(rows[..n], sellerId, year, month);
    }
  }

  lemma TotalsSnoc(rows: seq<Sale>, x: Sale, sellerId: nat, year: int, month: int)
    ensures CompanyMonthTotal(rows + [x], year, month)
            == CompanyMonthTotal(rows, year, month) + (if InMonth(x.date, year, month) then x.amount else 0.0)
    ensures SellerMonthTotal(rows + [x], sellerId, year, month)
            == SellerMonthTotal(rows, sellerId, year, month)
               + (if x.userId == Some(sellerId) && InMonth(x.date, year, month) then x.amount else 0.0)
  {
    assert (rows + [x])[..|rows|] == rows;
  }

  /** The sales owned by one seller. */
  function SalesOf(rows: seq<Sale>, sellerId: nat): seq<Sale> {
    Seqs.Filter(rows, (s: Sale) => s.userId == Some(sellerId))
  }

  /** The seller's sum is the company sum taken over that seller's own sales only. */
  lemma {:induction false} SellerTotalIsOwnSalesTotal(rows: seq<Sale>, sellerId: nat, year: int, month: int)
    ensures SellerMonthTotal(rows, sellerId, year, month) == CompanyMonthTotal(SalesOf(rows, sellerId), year, month)
  {
    if rows != [] {
      var n := |rows| - 1;
      var prefix, x := rows[..n], rows[n];
      assert rows == prefix + [x];
      SellerTotalIsOwnSalesTotal(prefix, sellerId, year, month);
      Seqs.FilterSnoc(prefix, x, (s: Sale) => s.userId == Some(sellerId));
      TotalsSnoc(prefix, x, sellerId, year, month);
      if x.userId == Some(sellerId) {
        TotalsSnoc(SalesOf(prefix, sellerId), x, sellerId, year, month);
      } else {
        assert SalesOf(prefix, sellerId) + [] == SalesOf(prefix, sellerId);
      }
    }
  }

  /** `delete_all_sales` takes exactly the seller's monthly total off the company's, and leaves the
      seller at 0. */
  lemma {:induction false} DeleteAllSalesTotals(rows: seq<Sale>, sellerId: nat, year: int, month: int)
    ensures CompanyMonthTotal(WithoutSeller(rows, sellerId), year, month)
            == CompanyMonthTotal(rows, year, month) - SellerMonthTotal(rows, sellerId, year, month)
    ensures SellerMonthTotal(WithoutSeller(rows, sellerId), sellerId, year, month) == 0.0
  {
    if rows != [] {
      var n := |rows| - 1;
      var prefix, x := rows[..n], rows[n];
      assert rows == prefix + [x];
      DeleteAllSalesTotals(prefix, sellerId, year, month);
      WithoutSellerSnoc(prefix, x, sellerId);
      TotalsSnoc(prefix, x, sellerId, year, month);
      if x.userId != Some(sellerId) {
        TotalsSnoc(WithoutSeller(prefix, sellerId), x, sellerId, year, month);
      } else {
        var kept := WithoutSeller(prefix, sellerId);
        assert kept + [] == kept;
        assert WithoutSeller(rows, sellerId) == kept;
      }
    }
  }

  // ---- percentage of goal (lines 69-70, 174-175) ----

  /** `(total / goal) * 100 if goal else 0`. */
  function Percentage(total: real, goal: real): real {
    if goal != 0.0 then total / goal * 100.0 else 0.0
  }

  /** The percentage is the share of the goal reached, in hundredths; a zero goal gives 0 and
      never a division by zero. */
  lemma PercentageMeaning(total: real, goal: real)
    ensures goal == 0.0 ==> Percentage(total, goal) == 0.0
    ensures goal != 0.0 ==> Percentage(total, goal) * goal == total * 100.0
  {
  }

  /** Against a positive goal, 100% is reached exactly when the total reaches the goal. */
  lemma PercentageReachesGoal(total: real, goal: real)
    requires goal > 0.0
    ensures Percentage(total, goal) >= 100.0 <==> total >= goal
  {
    PercentageMeaning(total, goal);
    var r := Percentage(total, goal);
    if r >= 100.0 { assert r * goal >= 100.0 * goal; }
    if total >= goal { assert r * goal >= 100.0 * goal; }
  }

  // ---- branch rates (lines 72-89, 176-193) ----

  datatype Branch = Loja | Oficina

  /** `branch.upper() == 'LOJA'` / `'OFICINA'`; any other branch leaves the commission rate
      unassigned and the handler fails, which is `None` here. */
  function BranchOf(text: string, u: Unicode): Option<Branch> {
    if u.upper(text) == "LOJA" then Some(Loja)
    else if u.upper(text) == "OFICINA" then Some(Oficina)
    else None
  }

  datatype Rates = Rates(commission: real, bonus: real)
  datatype Payout = Payout(commission: real, bonus: real)

  /** The Loja bonus: the first threshold reached, from the highest down, and only that one. */
  function LojaBonusRate(total: real): real {
    if total >= 225000.0 then 0.006
    else if total >= 170000.0 then 0.004
    else if total >= 130000.0 then 0.003
    else 0.0
  }

  function RatesFor(b: Branch, total: real): Rates {
    match b
    case Loja => Rates(0.01, LojaBonusRate(total))
    case Oficina => Rates(if total >= 50000.0 then 0.5 + 0.05 else 0.5, 0.0)
  }

  /** `commission = total * commission_rate`, `bonus = total * bonus_rate`. */
  function PayoutFor(b: Branch, total: real): Payout {
    var r := RatesFor(b, total);
    Payout(total * r.commission, total * r.bonus)
  }

  /** The Loja bonus table as data, highest threshold first. */
  const LojaTiers: seq<(real, real)> := [(225000.0, 0.006), (170000.0, 0.004), (130000.0, 0.003)]

  /** Tier `k` is the highest tier the total reaches. */
  predicate HighestTier(total: real, k: nat) {
    k < |LojaTiers| && total >= LojaTiers[k].0 && forall j :: 0 <= j < |LojaTiers| && total >= LojaTiers[j].0 ==> LojaTiers[j].0 <= LojaTiers[k].0
  }

  /** Exactly one tier applies: the bonus rate is the rate of the highest tier the total reaches,
      or 0 when it reaches none; the rates of lower tiers are not added. */
  lemma LojaBonusIsHighestTier(total: real)
    ensures (forall j :: 0 <= j < |LojaTiers| ==> total < LojaTiers[j].0) ==> LojaBonusRate(total) == 0.0
    ensures forall k: nat :: HighestTier(total, k) ==> LojaBonusRate(total) == LojaTiers[k].1
  {
    if forall j :: 0 <= j < |LojaTiers| ==> total < LojaTiers[j].0 {
      assert total < LojaTiers[2].0;
    }
    forall k: nat | HighestTier(total, k) ensures LojaBonusRate(total) == LojaTiers[k].1 {
      if k > 0 { assert total < LojaTiers[0].0; }
      if k > 1 { assert total < LojaTiers[1].0; }
    }
  }

  /** Each branch's rates. */
  lemma BranchRates(total: real)
    ensures RatesFor(Loja, total).commission == 0.01
    ensures total >= 225000.0 ==> RatesFor(Loja, total).bonus == 0.006
    ensures 170000.0 <= total < 225000.0 ==> RatesFor(Loja, total).bonus == 0.004
    ensures 130000.0 <= total < 170000.0 ==> RatesFor(Loja, total).bonus == 0.003
    ensures total < 130000.0 ==> RatesFor(Loja, total).bonus == 0.0
    ensures RatesFor(Oficina, total) == Rates(if total >= 50000.0 then 0.55 else 0.5, 0.0)
  {
  }

  /** The Loja bonus rate never falls as the total grows. */
  lemma LojaBonusMonotone(t1: real, t2: real)
    requires t1 <= t2
    ensures LojaBonusRate(t1) <= LojaBonusRate(t2)
  {
  }

  /** No sales, no commission and no bonus. */
  lemma ZeroSalesZeroPayout(b: Branch)
    ensures PayoutFor(b, 0.0) == Payout(0.0, 0.0)
  {
  }

  /** On non-negative totals, commission and bonus never fall as the total grows. */
  lemma PayoutMonotone(b: Branch, t1: real, t2: real)
    requires 0.0 <= t1 <= t2
    ensures PayoutFor(b, t1).commission <= PayoutFor(b, t2).commission
    ensures PayoutFor(b, t1).bonus <= PayoutFor(b, t2).bonus
  {
    var r1, r2 := RatesFor(b, t1), RatesFor(b, t2);
    if b == Loja { LojaBonusMonotone(t1, t2); }
    assert 0.0 <= r1.commission <= r2.commission && 0.0 <= r1.bonus <= r2.bonus;
    assert t1 * r1.commission <= t2 * r1.commission <= t2 * r2.commission;
    assert t1 * r1.bonus <= t2 * r1.bonus <= t2 * r2.bonus;
  }

  /** A Loja seller at the top tier: 225000 in sales pays 2250 commission and 1350 bonus. */
  lemma LojaTopTierExample()
    ensures PayoutFor(Loja, 225000.0) == Payout(2250.0, 1350.0)
  {
  }

  // ---- the seller dashboard (lines 117-193) ----

  /** The figures `seller_dashboard` renders. */
  datatype Figures = Figures(totalSales: real, companySales: real, individualGoal: real, generalGoal: real,
                             individualPercentage: real, companyPercentage: real, payout: Payout)

  /** `seller_dashboard(seller_id)` for the month (year, month) and the seller's branch text; `None`
      when the branch is neither LOJA nor OFICINA. */
  function SellerDashboard(sales: seq<Sale>, goals: GoalState, sellerId: nat, branchText: string, u: Unicode,
                           year: int, month: int): Option<Figures>
  {
    var total := SellerMonthTotal(sales, sellerId, year, month);
    var company := CompanyMonthTotal(sales, year, month);
    var individual := IndividualGoalOf(goals.individual, sellerId);
    var general := CurrentGeneralGoal(goals.general);
    match BranchOf(branchText, u)
    case None => None
    case Some(b) =>
      Some(Figures(total, company, individual, general, Percentage(total, individual), Percentage(company, general),
                   PayoutFor(b, total)))
  }

  /** The dashboard's figures agree with one another: a seller reaches 100% of a positive
      individual goal exactly when the monthly total reaches it, and with non-negative amounts
      the seller never out-sells the company. */
  lemma SellerDashboardConsistent(sales: seq<Sale>, goals: GoalState, sellerId: nat, branchText: string, u: Unicode,
                                  year: int, month: int)
    requires SellerDashboard(sales, goals, sellerId, branchText, u, year, month).Some?
    ensures var f := SellerDashboard(sales, goals, sellerId, branchText, u, year, month).value;
      && (f.individualGoal > 0.0 ==> (f.individualPercentage >= 100.0 <==> f.totalSales >= f.individualGoal))
      && (f.individualGoal == 0.0 ==> f.individualPercentage == 0.0)
      && ((forall s :: s in sales ==> s.amount >= 0.0) ==> f.totalSales <= f.companySales)
  {
    var f := SellerDashboard(sales, goals, sellerId, branchText, u, year, month).value;
    if f.individualGoal > 0.0 { PercentageReachesGoal(f.totalSales, f.individualGoal); }
    if forall s :: s in sales ==> s.amount >= 0.0 { CompanyTotalCoversSeller(sales, sellerId, year, month); }
  }
}
