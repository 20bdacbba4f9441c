/** The month's totals: spent and income are filter-then-sum over the list, available
    is the budget left after expenses and income, and the net is income minus spent. */
module Totals {
  import opened Ledger

  /** reduce((s, t) => s + t.amount, 0): 0 for no entries, and at least one per entry
      when every amount is positive. */
  function SumAmounts(txs: seq<Tx>): (r: int)
    ensures txs == [] ==> r == 0
    ensures (forall t :: t in txs ==> t.amount > 0) ==> r >= |txs|
  {
    if txs == [] then 0
    else
      assert forall t :: t in txs[..|txs| - 1] ==> t in txs;
      assert txs[|txs| - 1] in txs;
      SumAmounts(txs[..|txs| - 1]) + txs[|txs| - 1].amount
  }

  /** filter((t) => t.type === kind), in order. */
  function OfKind(txs: seq<Tx>, kind: TxKind): (r: seq<Tx>)
    ensures |r| <= |txs|
    ensures forall t :: t in r <==> t in txs && t.kind == kind
  {
    if txs == [] then []
    else
      var init := OfKind(txs[..|txs| - 1], kind);
      var last := txs[|txs| - 1];
      assert forall t :: t in txs <==> t in txs[..|txs| - 1] || t == last;
      if last.kind == kind then init + [last] else init
  }

  /** The amount an entry adds to the total of one kind. */
  function Share(t: Tx, kind: TxKind): int {
    if t.kind == kind then t.amount else 0
  }

  /** The total of one kind: the amounts of that kind added up, entry by entry. */
  function TotalOf(txs: seq<Tx>, kind: TxKind): (r: int)
    ensures (forall t :: t in txs ==> t.kind != kind) ==> r == 0
    ensures AllAccepted(txs) ==> r >= 0
  {
    AcceptedTotalNonNegative(txs, kind);
    SumAmounts(OfKind(txs, kind))
  }

  lemma AcceptedTotalNonNegative(txs: seq<Tx>, kind: TxKind)
    ensures AllAccepted(txs) ==> SumAmounts(OfKind(txs, kind)) >= 0
  {
    if AllAccepted(txs) {
      forall t | t in OfKind(txs, kind) ensures t.amount > 0 {
        var i :| 0 <= i < |txs| && txs[i] == t;
      }
    }
  }

  /** spent: never negative once every amount passed validation, and 0 for a month with
      only incomes. */
  function TotalSpent(txs: seq<Tx>): (r: int)
    ensures AllAccepted(txs) ==> r >= 0
    ensures (forall t :: t in txs ==> t.kind == Income) ==> r == 0
  {
    TotalOf(txs, Expense)
  }

  /** income: never negative once every amount passed validation, and 0 for a month with
      only expenses. */
  function TotalIncome(txs: seq<Tx>): (r: int)
    ensures AllAccepted(txs) ==> r >= 0
    ensures (forall t :: t in txs ==> t.kind == Expense) ==> r == 0
  {
    TotalOf(txs, Income)
  }

  /** Math.max(0, budget - spent + income): never negative, and exactly what is left of
      the budget whenever something is left. */
  function Available(budget: int, txs: seq<Tx>): (r: int)
    ensures r >= 0
    ensures r >= budget - TotalSpent(txs) + TotalIncome(txs)
    ensures budget - TotalSpent(txs) + TotalIncome(txs) >= 0 ==> r == budget - TotalSpent(txs) + TotalIncome(txs)
  {
    var left := budget - TotalSpent(txs) + TotalIncome(txs);
    if left > 0 then left else 0
  }

  /** pygNeto = income - spent: the month's running balance, read entry by entry. */
  function Net(txs: seq<Tx>): (r: int)
    ensures r == Balance(txs)
  {
    SumOfKind(txs, Expense);
    SumOfKind(txs, Income);
    SharesBalance(txs);
    TotalIncome(txs) - TotalSpent(txs)
  }

  /** The month's balance read entry by entry: incomes count up, expenses count down. */
  function Balance(txs: seq<Tx>): int {
    if txs == [] then 0
    else
      var last := txs[|txs| - 1];
      Balance(txs[..|txs| - 1]) + (if last.kind == Income then last.amount else -last.amount)
  }

  lemma {:induction false} SharesBalance(txs: seq<Tx>)
    ensures SumShares(txs, Income) - SumShares(txs, Expense) == Balance(txs)
  {
    if txs != [] {
      SharesBalance(txs[..|txs| - 1]);
    }
  }

  /** What is available is the budget plus the net, floored at zero. */
  lemma AvailableIsBudgetPlusNet(budget: int, txs: seq<Tx>)
    ensures Available(budget, txs) == if budget + Net(txs) > 0 then budget + Net(txs) else 0
  {
  }

  /** Summing filtered entries is summing each entry's share. */
  lemma {:induction false} SumOfKind(txs: seq<Tx>, kind: TxKind)
    ensures SumAmounts(OfKind(txs, kind)) == SumShares(txs, kind)
  {
    if txs != [] {
      var init := txs[..|txs| - 1];
      SumOfKind(init, kind);
      var last := txs[|txs| - 1];
      if last.kind == kind {
        var r := OfKind(init, kind) + [last];
        assert r[..|r| - 1] == OfKind(init, kind);
      }
    }
  }

  function SumShares(txs: seq<Tx>, kind: TxKind): int
  {
    if txs == [] then 0 else SumShares(txs[..|txs| - 1], kind) + Share(txs[|txs| - 1], kind)
  }

  lemma {:induction false} SumSharesAppend(a: seq<Tx>, b: seq<Tx>, kind: TxKind)
    ensures SumShares(a + b, kind) == SumShares(a, kind) + SumShares(b, kind)
  {
    if b == [] {
      assert a + b == a;
    } else {
      assert (a + b)[..|a + b| - 1] == a + b[..|b| - 1];
      SumSharesAppend(a, b[..|b| - 1], kind);
    }
  }

  /** Totals of a concatenation are the sums of the totals of the parts. */
  lemma TotalAppend(a: seq<Tx>, b: seq<Tx>, kind: TxKind)
    ensures TotalOf(a + b, kind) == TotalOf(a, kind) + TotalOf(b, kind)
  {
    SumOfKind(a + b, kind);
    SumOfKind(a, kind);
    SumOfKind(b, kind);
    SumSharesAppend(a, b, kind);
  }

  /** Every amount is an expense or an income: spent + income is the sum of all amounts. */
  lemma {:induction false} SpentPlusIncome(txs: seq<Tx>)
    ensures TotalSpent(txs) + TotalIncome(txs) == SumAmounts(txs)
  {
    SumOfKind(txs, Expense);
    SumOfKind(txs, Income);
    SharesCover(txs);
  }

  lemma {:induction false} SharesCover(txs: seq<Tx>)
    ensures SumShares(txs, Expense) + SumShares(txs, Income) == SumAmounts(txs)
  {
    if txs != [] {
      SharesCover(txs[..|txs| - 1]);
    }
  }

  /** A new entry put in front of the list adds its amount to its own kind's total and
      leaves the other kind's total alone. */
  lemma Prepend(t: Tx, txs: seq<Tx>, kind: TxKind)
    ensures TotalOf([t] + txs, kind) == TotalOf(txs, kind) + (if t.kind == kind then t.amount else 0)
  {
    TotalAppend([t], txs, kind);
    SumOfKind([t], kind);
    assert [t][..0] == [];
  }

  /** Deleting the entry at k (ids distinct) takes its amount off its own kind's total. */
  lemma Delete(txs: seq<Tx>, k: nat, kind: TxKind)
    requires IdsDistinct(txs) && k < |txs|
    ensures TotalOf(RemoveById(txs, txs[k].id), kind)
         == TotalOf(txs, kind) - (if txs[k].kind == kind then txs[k].amount else 0)
  {
    RemoveAt(txs, k);
    SplitAt(txs, k);
    TotalAppend(txs[..k] + [txs[k]], txs[k + 1..], kind);
    TotalAppend(txs[..k], [txs[k]], kind);
    TotalAppend(txs[..k], txs[k + 1..], kind);
    SumOfKind([txs[k]], kind);
    assert [txs[k]][..0] == [];
  }

  /** Recording an expense never raises what is available; recording an income never
      lowers it. */
  lemma AvailableMoves(budget: int, t: Tx, txs: seq<Tx>)
    requires t.amount > 0
    ensures t.kind == Expense ==> Available(budget, [t] + txs) <= Available(budget, txs)
    ensures t.kind == Income ==> Available(budget, [t] + txs) >= Available(budget, txs)
  {
    Prepend(t, txs, Expense);
    Prepend(t, txs, Income);
  }
}
