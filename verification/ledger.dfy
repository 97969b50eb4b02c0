/**
 * Transactions and the two reductions every view performs over a list of
 * them: keeping the entries that satisfy a condition (`Array.prototype.filter`)
 * and adding their amounts from zero (`Array.prototype.reduce`); and the
 * transactions of one calendar month.
 */
module Ledger {
  import opened Wrappers
  import opened Calendar

  /**
   * A stored transaction row. `kind` is the row's `type` column, compared as a
   * string; `amount` is an exact decimal.
   */
  datatype Transaction = Transaction(
    id: string,
    kind: string,
    amount: real,
    description: string,
    category: Option<string>,
    date: Date)

  predicate IsIncome(t: Transaction) {
    t.kind == "income"
  }

  predicate IsExpense(t: Transaction) {
    t.kind == "expense"
  }

  /** The entries of `s` that satisfy `p`, in their order in `s`. */
  function Filter<T>(s: seq<T>, p: T -> bool): (r: seq<T>)
    ensures |r| <= |s|
    ensures forall x :: x in r ==> x in s && p(x)
    ensures forall i :: 0 <= i < |s| && p(s[i]) ==> s[i] in r
  {
    if s == [] then []
    else Filter(s[..|s| - 1], p) + (if p(s[|s| - 1]) then [s[|s| - 1]] else [])
  }

  /** The positions of `s` whose entry satisfies `p`, in increasing order. */
  function Positions<T>(s: seq<T>, p: T -> bool): (r: seq<nat>)
    ensures forall k :: 0 <= k < |r| ==> r[k] < |s| && p(s[r[k]])
    ensures forall k, l :: 0 <= k < l < |r| ==> r[k] < r[l]
    ensures forall i :: 0 <= i < |s| && p(s[i]) ==> i in r
  {
    if s == [] then []
    else Positions(s[..|s| - 1], p) + (if p(s[|s| - 1]) then [|s| - 1] else [])
  }

  /**
   * `Filter` keeps exactly the entries that satisfy `p`, each once, in input
   * order: its k-th entry is the entry at the k-th satisfying position.
   */
  lemma {:induction false} FilterSelectsInOrder<T>(s: seq<T>, p: T -> bool)
    ensures |Filter(s, p)| == |Positions(s, p)|
    ensures forall k :: 0 <= k < |Filter(s, p)| ==> Filter(s, p)[k] == s[Positions(s, p)[k]]
  {
    if s != [] {
      var init := s[..|s| - 1];
      var f, ps := Filter(init, p), Positions(init, p);
      FilterSelectsInOrder(init, p);
      var extra := if p(s[|s| - 1]) then [s[|s| - 1]] else [];
      var extraPos := if p(s[|s| - 1]) then [|s| - 1] else [];
      assert Filter(s, p) == f + extra;
      assert Positions(s, p) == ps + extraPos;
      forall k | 0 <= k < |Filter(s, p)|
        ensures Filter(s, p)[k] == s[Positions(s, p)[k]]
      {
        if k < |f| {
          assert Filter(s, p)[k] == f[k] == init[ps[k]];
          assert Positions(s, p)[k] == ps[k];
        }
      }
    }
  }

  /** Filtering a list extended at the end filters the old list and tests the new entry. */
  lemma FilterSnoc<T>(s: seq<T>, x: T, p: T -> bool)
    ensures Filter(s + [x], p) == Filter(s, p) + (if p(x) then [x] else [])
  {
    assert (s + [x])[..|s|] == s;
  }

  /** Filtering distributes over concatenation: entries of `a` come before entries of `b`. */
  lemma {:induction false} FilterConcat<T>(a: seq<T>, b: seq<T>, p: T -> bool)
    ensures Filter(a + b, p) == Filter(a, p) + Filter(b, p)
    decreases |b|
  {
    if b == [] {
      assert a + b == a;
    } else {
      var init := b[..|b| - 1];
      var x := b[|b| - 1];
      assert a + b == (a + init) + [x];
      assert b == init + [x];
      FilterSnoc(a + init, x, p);
      FilterSnoc(init, x, p);
      FilterConcat(a, init, p);
    }
  }

  /** The amounts added up from zero, front to back, as `Array.prototype.reduce` does. */
  function SumAmounts(ts: seq<Transaction>): real {
    if ts == [] then 0.0 else SumAmounts(ts[..|ts| - 1]) + ts[|ts| - 1].amount
  }

  lemma SumAmountsSnoc(ts: seq<Transaction>, t: Transaction)
    ensures SumAmounts(ts + [t]) == SumAmounts(ts) + t.amount
  {
    assert (ts + [t])[..|ts|] == ts;
  }

  /** Adding up is insensitive to how the list is cut in two. */
  lemma {:induction false} SumAmountsConcat(a: seq<Transaction>, b: seq<Transaction>)
    ensures SumAmounts(a + b) == SumAmounts(a) + SumAmounts(b)
    decreases |b|
  {
    if b == [] {
      assert a + b == a;
    } else {
      var init := b[..|b| - 1];
      var x := b[|b| - 1];
      assert a + b == (a + init) + [x];
      assert b == init + [x];
      SumAmountsSnoc(a + init, x);
      SumAmountsSnoc(init, x);
      SumAmountsConcat(a, init);
    }
  }

  /** The three figures each summary card shows. */
  datatype Totals = Totals(income: real, expenses: real, balance: real)

  /**
   * Income is the sum over entries typed "income", expenses the sum over
   * entries typed "expense", and the balance their difference.
   */
  function ComputeTotals(ts: seq<Transaction>): Totals {
    var income := SumAmounts(Filter(ts, IsIncome));
    var expenses := SumAmounts(Filter(ts, IsExpense));
    Totals(income, expenses, income - expenses)
  }

  /** What one transaction does to the balance: income adds, expense subtracts, any other type is neutral. */
  function SignedAmount(t: Transaction): real {
    if IsIncome(t) then t.amount else if IsExpense(t) then -t.amount else 0.0
  }

  /** The net cash flow of a list, entry by entry; an independent reading of the balance. */
  function NetFlow(ts: seq<Transaction>): real {
    if ts == [] then 0.0 else NetFlow(ts[..|ts| - 1]) + SignedAmount(ts[|ts| - 1])
  }

  /**
   * Appending one transaction moves only the total of its own type, by its
   * amount; a transaction of any other type changes no figure.
   */
  lemma TotalsSnoc(ts: seq<Transaction>, t: Transaction)
    ensures var before, after := ComputeTotals(ts), ComputeTotals(ts + [t]);
      && after.income == before.income + (if IsIncome(t) then t.amount else 0.0)
      && after.expenses == before.expenses + (if IsExpense(t) then t.amount else 0.0)
      && after.balance == before.balance + SignedAmount(t)
  {
    FilterSnoc(ts, t, IsIncome);
    FilterSnoc(ts, t, IsExpense);
    if IsIncome(t) {
      SumAmountsSnoc(Filter(ts, IsIncome), t);
      assert Filter(ts, IsExpense) + [] == Filter(ts, IsExpense);
    } else if IsExpense(t) {
      SumAmountsSnoc(Filter(ts, IsExpense), t);
      assert Filter(ts, IsIncome) + [] == Filter(ts, IsIncome);
    } else {
      assert Filter(ts, IsExpense) + [] == Filter(ts, IsExpense);
      assert Filter(ts, IsIncome) + [] == Filter(ts, IsIncome);
    }
  }

  /** The balance equals the net cash flow, so it is exactly income minus expenses entry by entry. */
  lemma {:induction false} BalanceIsNetFlow(ts: seq<Transaction>)
    ensures ComputeTotals(ts).balance == NetFlow(ts)
    ensures ComputeTotals(ts).balance == ComputeTotals(ts).income - ComputeTotals(ts).expenses
  {
    if ts != [] {
      var init := ts[..|ts| - 1];
      BalanceIsNetFlow(init);
      assert init + [ts[|ts| - 1]] == ts;
      TotalsSnoc(init, ts[|ts| - 1]);
    }
  }

  /** Totals of a list cut in two add up. */
  lemma TotalsConcat(a: seq<Transaction>, b: seq<Transaction>)
    ensures ComputeTotals(a + b).income == ComputeTotals(a).income + ComputeTotals(b).income
    ensures ComputeTotals(a + b).expenses == ComputeTotals(a).expenses + ComputeTotals(b).expenses
  {
    FilterConcat(a, b, IsIncome);
    FilterConcat(a, b, IsExpense);
    SumAmountsConcat(Filter(a, IsIncome), Filter(b, IsIncome));
    SumAmountsConcat(Filter(a, IsExpense), Filter(b, IsExpense));
  }

  /** The amount sum over the entries satisfying `p`. */
  function SumWhere(s: seq<Transaction>, p: Transaction -> bool): real {
    SumAmounts(Filter(s, p))
  }

  /** Taking one entry out of a list takes its amount out of the sum, if it satisfies `p`. */
  lemma SumWhereSplit(pre: seq<Transaction>, x: Transaction, post: seq<Transaction>, p: Transaction -> bool)
    ensures SumWhere(pre + [x] + post, p) == SumWhere(pre + post, p) + (if p(x) then x.amount else 0.0)
  {
    FilterConcat(pre + [x], post, p);
    FilterConcat(pre, post, p);
    FilterSnoc(pre, x, p);
    SumAmountsConcat(Filter(pre + [x], p), Filter(post, p));
    SumAmountsConcat(Filter(pre, p), Filter(post, p));
    if p(x) {
      SumAmountsSnoc(Filter(pre, p), x);
    } else {
      assert Filter(pre, p) + [] == Filter(pre, p);
    }
  }

  /** Cutting the entry at `j` out of a list removes one copy of it from the list's multiset. */
  lemma CutOut<T>(s: seq<T>, j: nat)
    requires j < |s|
    ensures s == s[..j] + [s[j]] + s[j + 1..]
    ensures multiset(s[..j] + s[j + 1..]) == multiset(s) - multiset{s[j]}
  {
    assert s == s[..j] + [s[j]] + s[j + 1..];
    assert multiset(s) == multiset(s[..j]) + multiset{s[j]} + multiset(s[j + 1..]);
  }

  /** Taking the last entry off `a` and the same entry off `b` at `j` changes both sums alike. */
  lemma SumWhereCutOut(a: seq<Transaction>, b: seq<Transaction>, j: nat, p: Transaction -> bool)
    requires a != [] && j < |b| && b[j] == a[|a| - 1]
    ensures var d := if p(b[j]) then b[j].amount else 0.0;
      && SumWhere(a, p) == SumWhere(a[..|a| - 1], p) + d
      && SumWhere(b, p) == SumWhere(b[..j] + b[j + 1..], p) + d
  {
    var x := b[j];
    var a' := a[..|a| - 1];
    assert a == a' + [x] + [];
    assert a' + [] == a';
    SumWhereSplit(a', x, [], p);
    var pre, post := b[..j], b[j + 1..];
    assert b == pre + [x] + post;
    SumWhereSplit(pre, x, post, p);
  }

  /** Removing one copy of the same entry from two lists with equal multisets leaves equal multisets. */
  lemma CutOutBoth<T>(a: seq<T>, b: seq<T>, j: nat)
    requires multiset(a) == multiset(b)
    requires a != [] && j < |b| && b[j] == a[|a| - 1]
    ensures multiset(a[..|a| - 1]) == multiset(b[..j] + b[j + 1..])
  {
    CutOut(b, j);
    CutOut(a, |a| - 1);
    assert a[..|a| - 1] + a[|a|..] == a[..|a| - 1];
  }

  /** The amount sum over the entries satisfying `p` depends only on which entries the list holds, not on their order. */
  lemma {:induction false} FilteredSumPermutation(a: seq<Transaction>, b: seq<Transaction>, p: Transaction -> bool)
    requires multiset(a) == multiset(b)
    ensures SumWhere(a, p) == SumWhere(b, p)
    decreases |a|
  {
    if a == [] {
      assert |b| == |multiset(b)| == 0;
    } else {
      var x := a[|a| - 1];
      assert x in multiset(b);
      var j :| 0 <= j < |b| && b[j] == x;
      CutOutBoth(a, b, j);
      var a', b' := a[..|a| - 1], b[..j] + b[j + 1..];
      FilteredSumPermutation(a', b', p);
      SumWhereCutOut(a, b, j, p);
    }
  }

  /** Income and expense totals depend only on which transactions the list holds. */
  lemma TotalsPermutation(a: seq<Transaction>, b: seq<Transaction>)
    requires multiset(a) == multiset(b)
    ensures ComputeTotals(a) == ComputeTotals(b)
  {
    FilteredSumPermutation(a, b, IsIncome);
    FilteredSumPermutation(a, b, IsExpense);
  }

  // ---------------------------------------------------------------------------
  // One calendar month
  // ---------------------------------------------------------------------------

  /** The test that a transaction is dated in month `c`. */
  function InMonth(c: YearMonth): Transaction -> bool {
    (t: Transaction) => MonthOf(t.date) == c
  }

  /**
   * The transactions dated in month `c`, in list order: the dashboard's
   * monthly filter, and the reference for what a history bucket holds.
   */
  function MonthlyTransactions(ts: seq<Transaction>, c: YearMonth): (r: seq<Transaction>)
    ensures forall t :: t in r ==> t in ts && t.date.year == c.year && t.date.month == c.month
    ensures forall t :: t in ts && t.date.year == c.year && t.date.month == c.month ==> t in r
  {
    Filter(ts, InMonth(c))
  }

  /** A month's transactions over a list extended at the end. */
  lemma MonthlySnoc(ts: seq<Transaction>, t: Transaction, c: YearMonth)
    ensures MonthlyTransactions(ts + [t], c)
      == MonthlyTransactions(ts, c) + (if MonthOf(t.date) == c then [t] else [])
  {
    FilterSnoc(ts, t, InMonth(c));
  }

  /** A month has no transactions in the list exactly when none is dated in it. */
  lemma MonthlyEmptyIffAbsent(ts: seq<Transaction>, c: YearMonth)
    ensures MonthlyTransactions(ts, c) == [] <==> forall t :: t in ts ==> MonthOf(t.date) != c
  {
    var r := MonthlyTransactions(ts, c);
    if r != [] {
      assert r[0] in r;
    }
  }
}
