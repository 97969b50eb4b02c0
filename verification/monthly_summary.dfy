/**
 * The dashboard's monthly summary: a month cursor that starts at the current
 * month, moves back without limit and forward only up to the current month,
 * and the income / expense / balance figures of the transactions dated in
 * the selected month. "Today" is always a parameter.
 */
module MonthlySummary {
  import opened Calendar
  import opened Ledger

  /**
   * The monthly filter keeps exactly the transactions of the selected month,
   * each once and in list order.
   */
  lemma MonthlyFilterExact(ts: seq<Transaction>, c: YearMonth)
    ensures var r, ps := MonthlyTransactions(ts, c), Positions(ts, InMonth(c));
      && |r| == |ps|
      && (forall k :: 0 <= k < |r| ==> r[k] == ts[ps[k]])
      && (forall k, l :: 0 <= k < l < |ps| ==> ps[k] < ps[l])
      && (forall i :: 0 <= i < |ts| ==> (i in ps <==> MonthOf(ts[i].date) == c))
  {
    FilterSelectsInOrder(ts, InMonth(c));
  }

  /** A transaction on the last day of a month and one on the first day of the next never share a filter result. */
  lemma MonthBoundarySeparates(ts: seq<Transaction>, c: YearMonth, a: Transaction, b: Transaction)
    requires ValidDate(a.date) && a.date.day == DaysInMonth(a.date.year, a.date.month)
    requires b.date.day == 1 && MonthOf(b.date) == Following(MonthOf(a.date))
    ensures !(a in MonthlyTransactions(ts, c) && b in MonthlyTransactions(ts, c))
  {
    MonthBoundary(a.date, b.date);
  }

  /** The three summary cards for the selected month. */
  function MonthlyTotals(ts: seq<Transaction>, c: YearMonth): Totals {
    ComputeTotals(MonthlyTransactions(ts, c))
  }

  /**
   * The monthly balance is income minus expenses of that month, and equals the
   * month's net cash flow, to which transactions of other months and of other
   * types contribute nothing.
   */
  lemma MonthlyBalance(ts: seq<Transaction>, c: YearMonth)
    ensures MonthlyTotals(ts, c).balance == MonthlyTotals(ts, c).income - MonthlyTotals(ts, c).expenses
    ensures MonthlyTotals(ts, c).balance == NetFlow(MonthlyTransactions(ts, c))
  {
    BalanceIsNetFlow(MonthlyTransactions(ts, c));
  }

  /** An income of 1000.00 and an expense of 250.50 in the same month give a balance of 749.50. */
  lemma IncomeAndExpenseExample(c: YearMonth, d: Date, i: Transaction, e: Transaction)
    requires MonthOf(d) == c
    requires i.kind == "income" && i.amount == 1000.00 && i.date == d
    requires e.kind == "expense" && e.amount == 250.50 && e.date == d
    ensures MonthlyTotals([i, e], c) == Totals(1000.00, 250.50, 749.50)
  {
    MonthlySnoc([], i, c);
    MonthlySnoc([i], e, c);
    assert [] + [i] == [i] && [i] + [e] == [i, e];
    TotalsSnoc([], i);
    TotalsSnoc([i], e);
  }

  /** Appending a transaction of another month leaves the month's totals unchanged. */
  lemma OtherMonthIgnored(ts: seq<Transaction>, c: YearMonth, t: Transaction)
    requires MonthOf(t.date) != c
    ensures MonthlyTotals(ts + [t], c) == MonthlyTotals(ts, c)
  {
    assert !InMonth(c)(t);
    FilterSnoc(ts, t, InMonth(c));
    assert Filter(ts + [t], InMonth(c)) == Filter(ts, InMonth(c)) + [];
    assert Filter(ts, InMonth(c)) + [] == Filter(ts, InMonth(c));
  }

  // ---------------------------------------------------------------------------
  // The month cursor
  // ---------------------------------------------------------------------------

  /** The cursor's first value: the month of today. */
  function InitialCursor(today: Date): YearMonth {
    MonthOf(today)
  }

  /** `previousMonth`: one calendar month back, without a lower bound. */
  function PreviousMonth(c: YearMonth): (r: YearMonth)
    ensures Ordinal(r) == Ordinal(c) - 1
    ensures Before(r, c)
  {
    BeforeIsOrdinalOrder(Preceding(c), c);
    Preceding(c)
  }

  /** `nextMonth`: one calendar month forward while the cursor lies before today's month, otherwise no move. */
  function NextMonth(c: YearMonth, today: Date): (r: YearMonth)
    ensures Before(c, MonthOf(today)) ==> Ordinal(r) == Ordinal(c) + 1
    ensures !Before(c, MonthOf(today)) ==> r == c
    ensures !Before(MonthOf(today), c) ==> !Before(MonthOf(today), r)
  {
    BeforeIsOrdinalOrder(c, MonthOf(today));
    BeforeIsOrdinalOrder(MonthOf(today), Following(c));
    if Before(c, MonthOf(today)) then Following(c) else c
  }

  /** `isCurrentMonth`: the cursor shows today's month. */
  predicate IsCurrentMonth(c: YearMonth, today: Date) {
    c.month == today.month && c.year == today.year
  }

  /** The cursor is never later than today's month. */
  predicate NotInFuture(c: YearMonth, today: Date) {
    !Before(MonthOf(today), c)
  }

  lemma IsCurrentMonthIsToday(c: YearMonth, today: Date)
    ensures IsCurrentMonth(c, today) <==> c == MonthOf(today)
  {
  }

  /**
   * For a cursor that is not in the future, the forward move is a no-op
   * exactly when the cursor shows the current month (the state in which the
   * forward button is disabled).
   */
  lemma NextIsNoOpExactlyAtCurrentMonth(c: YearMonth, today: Date)
    requires NotInFuture(c, today)
    ensures NextMonth(c, today) == c <==> IsCurrentMonth(c, today)
  {
    BeforeIsOrdinalOrder(c, MonthOf(today));
    BeforeIsOrdinalOrder(MonthOf(today), c);
    OrdinalInjective(c, MonthOf(today));
  }

  /** Moving back always changes the cursor. */
  lemma PreviousAlwaysMoves(c: YearMonth)
    ensures PreviousMonth(c) != c
  {
  }

  /** Moving back and then forward returns to the same month, since the month moved back from is never in the future. */
  lemma NextUndoesPrevious(c: YearMonth, today: Date)
    requires NotInFuture(c, today)
    ensures NextMonth(PreviousMonth(c), today) == c
  {
    var p := PreviousMonth(c);
    BeforeIsOrdinalOrder(c, MonthOf(today));
    BeforeIsOrdinalOrder(MonthOf(today), c);
    BeforeIsOrdinalOrder(p, MonthOf(today));
    OrdinalInjective(NextMonth(p, today), c);
  }

  /** A button press on the month navigation, together with the "today" at the moment of the press. */
  datatype Move = Back | Forward
  datatype Press = Press(move: Move, today: Date)

  function Step(c: YearMonth, p: Press): YearMonth {
    match p.move
    case Back => PreviousMonth(c)
    case Forward => NextMonth(c, p.today)
  }

  /** The cursor after a sequence of presses, starting from `c`. */
  function Run(c: YearMonth, presses: seq<Press>): YearMonth
    decreases |presses|
  {
    if presses == [] then c else Run(Step(c, presses[0]), presses[1..])
  }

  /** Today never goes backwards between presses. */
  predicate ClockMonotone(start: Date, presses: seq<Press>) {
    && (forall i :: 0 <= i < |presses| ==> !Before(MonthOf(presses[i].today), MonthOf(start)))
    && (forall i, j :: 0 <= i < j < |presses| ==> !Before(MonthOf(presses[j].today), MonthOf(presses[i].today)))
  }

  function LastToday(start: Date, presses: seq<Press>): Date {
    if presses == [] then start else presses[|presses| - 1].today
  }

  /** A clock that never goes backwards from `start` never goes backwards from its first press either. */
  lemma ClockMonotoneTail(start: Date, presses: seq<Press>)
    requires presses != []
    requires ClockMonotone(start, presses)
    ensures ClockMonotone(presses[0].today, presses[1..])
    ensures LastToday(presses[0].today, presses[1..]) == LastToday(start, presses)
  {
    var rest := presses[1..];
    forall i | 0 <= i < |rest|
      ensures !Before(MonthOf(rest[i].today), MonthOf(presses[0].today))
    {
      assert rest[i] == presses[i + 1];
    }
    forall i, j | 0 <= i < j < |rest|
      ensures !Before(MonthOf(rest[j].today), MonthOf(rest[i].today))
    {
      assert rest[i] == presses[i + 1] && rest[j] == presses[j + 1];
    }
  }

  /**
   * Starting from a cursor not in the future (in particular, the initial
   * cursor), any sequence of presses under a fixed or advancing clock leaves
   * the cursor not later than the latest today's month.
   */
  lemma {:induction false} CursorNeverInFuture(c: YearMonth, start: Date, presses: seq<Press>)
    requires NotInFuture(c, start)
    requires ClockMonotone(start, presses)
    ensures NotInFuture(Run(c, presses), LastToday(start, presses))
    decreases |presses|
  {
    if presses != [] {
      var p := presses[0];
      var c' := Step(c, p);
      BeforeIsOrdinalOrder(MonthOf(start), c);
      BeforeIsOrdinalOrder(MonthOf(p.today), MonthOf(start));
      BeforeIsOrdinalOrder(MonthOf(p.today), c);
      BeforeIsOrdinalOrder(MonthOf(p.today), c');
      assert NotInFuture(c', p.today);
      var rest := presses[1..];
      ClockMonotoneTail(start, presses);
      CursorNeverInFuture(c', p.today, rest);
    }
  }

  /** The initial cursor is the current month and therefore never in the future under any presses. */
  lemma InitialCursorNeverInFuture(today: Date, presses: seq<Press>)
    requires ClockMonotone(today, presses)
    ensures NotInFuture(Run(InitialCursor(today), presses), LastToday(today, presses))
  {
    CursorNeverInFuture(InitialCursor(today), today, presses);
  }

  // ---------------------------------------------------------------------------
  // The cursor moves as the component computes them
  // ---------------------------------------------------------------------------

  /**
   * The `Date` constructor's first day of a month, reduced to its calendar month, as the
   * ECMAScript Date constructor computes it: a year argument from 0 to 99
   * stands for 1900 + year, and an out-of-range month index carries into the
   * year (year + floor(monthIndex / 12), monthIndex modulo 12).
   */
  function JsMonthStart(year: int, monthIndex: int): (r: YearMonth)
    ensures !(0 <= year <= 99) ==> Ordinal(r) == year * 12 + monthIndex
    ensures 0 <= year <= 99 ==> Ordinal(r) == (1900 + year) * 12 + monthIndex
  {
    var y := if 0 <= year <= 99 then 1900 + year else year;
    FromOrdinal(y * 12 + monthIndex)
  }

  /** `previousMonth` as written: the `Date` constructor called with the cursor's year and its month index minus one. */
  function PreviousMonthAsWritten(c: YearMonth): YearMonth {
    JsMonthStart(c.year, c.month - 1)
  }

  /** `nextMonth` as written: the `Date` constructor called with the cursor's year and its month index plus one, behind the same guard. */
  function NextMonthAsWritten(c: YearMonth, today: Date): YearMonth {
    if Before(c, MonthOf(today)) then JsMonthStart(c.year, c.month + 1) else c
  }

  /** Away from the years 0 to 99 the moves as written are the one-month moves. */
  lemma AsWrittenAgreesOutsideTwoDigitYears(c: YearMonth, today: Date)
    requires !(0 <= c.year <= 99)
    ensures PreviousMonthAsWritten(c) == PreviousMonth(c)
    ensures NextMonthAsWritten(c, today) == NextMonth(c, today)
  {
    OrdinalInjective(PreviousMonthAsWritten(c), PreviousMonth(c));
    OrdinalInjective(NextMonthAsWritten(c, today), NextMonth(c, today));
  }

  /**
   * Two presses of "previous" from January of year 100 reach November 1999
   * instead of November 99: the second call passes year 99 to the Date
   * constructor, which reads it as 1999.
   */
  lemma PreviousMonthAsWrittenJumpsForward()
    ensures PreviousMonthAsWritten(YearMonth(100, 0)) == YearMonth(99, 11)
    ensures PreviousMonthAsWritten(YearMonth(99, 11)) == YearMonth(1999, 10)
    ensures PreviousMonth(YearMonth(99, 11)) == YearMonth(99, 10)
    ensures !Before(YearMonth(1999, 10), YearMonth(99, 11))
  {
    OrdinalInjective(PreviousMonthAsWritten(YearMonth(100, 0)), YearMonth(99, 11));
    OrdinalInjective(PreviousMonthAsWritten(YearMonth(99, 11)), YearMonth(1999, 10));
  }

  /**
   * "Next" from December 99 lands in January 2000 instead of January 100, 1900
   * years forward. With today in January of year 100 that is a month after
   * today, so under such a clock the as-written move breaks the
   * never-in-the-future invariant that `NextMonth` keeps; under a clock from
   * 2000 on it cannot (`CursorAsWrittenNeverInFuture`).
   */
  lemma NextMonthAsWrittenLeavesPresent()
    ensures NextMonthAsWritten(YearMonth(99, 11), Date(100, 0, 1)) == YearMonth(2000, 0)
    ensures NotInFuture(YearMonth(99, 11), Date(100, 0, 1))
    ensures !NotInFuture(NextMonthAsWritten(YearMonth(99, 11), Date(100, 0, 1)), Date(100, 0, 1))
    ensures NextMonth(YearMonth(99, 11), Date(100, 0, 1)) == YearMonth(100, 0)
  {
    OrdinalInjective(NextMonthAsWritten(YearMonth(99, 11), Date(100, 0, 1)), YearMonth(2000, 0));
  }

  /**
   * Under a clock in the year 2000 or later, the moves as written keep a cursor
   * that is not in the future there: a two-digit year is read as 1900 to 1999,
   * so a move from one lands no later than January 2000.
   */
  lemma AsWrittenStaysInPresent(c: YearMonth, today: Date)
    requires today.year >= 2000
    requires NotInFuture(c, today)
    ensures NotInFuture(PreviousMonthAsWritten(c), today)
    ensures NotInFuture(NextMonthAsWritten(c, today), today)
  {
    BeforeIsOrdinalOrder(MonthOf(today), c);
    BeforeIsOrdinalOrder(c, MonthOf(today));
    BeforeIsOrdinalOrder(MonthOf(today), PreviousMonthAsWritten(c));
    BeforeIsOrdinalOrder(MonthOf(today), NextMonthAsWritten(c, today));
  }

  /** One press with the moves as the component computes them. */
  function StepAsWritten(c: YearMonth, p: Press): YearMonth {
    match p.move
    case Back => PreviousMonthAsWritten(c)
    case Forward => NextMonthAsWritten(c, p.today)
  }

  /** The cursor after a sequence of presses with the moves as written, starting from `c`. */
  function RunAsWritten(c: YearMonth, presses: seq<Press>): YearMonth
    decreases |presses|
  {
    if presses == [] then c else RunAsWritten(StepAsWritten(c, presses[0]), presses[1..])
  }

  /**
   * With a clock that starts in the year 2000 or later and never goes
   * backwards, the moves as written never take the cursor past the latest
   * today's month either: only a clock before 2000 exposes the two-digit-year
   * reading.
   */
  lemma {:induction false} CursorAsWrittenNeverInFuture(c: YearMonth, start: Date, presses: seq<Press>)
    requires start.year >= 2000
    requires NotInFuture(c, start)
    requires ClockMonotone(start, presses)
    ensures NotInFuture(RunAsWritten(c, presses), LastToday(start, presses))
    decreases |presses|
  {
    if presses != [] {
      var p := presses[0];
      BeforeIsOrdinalOrder(MonthOf(start), c);
      BeforeIsOrdinalOrder(MonthOf(p.today), MonthOf(start));
      BeforeIsOrdinalOrder(MonthOf(p.today), c);
      AsWrittenStaysInPresent(c, p.today);
      ClockMonotoneTail(start, presses);
      CursorAsWrittenNeverInFuture(StepAsWritten(c, p), p.today, presses[1..]);
    }
  }

  /** The initial cursor under a clock from 2000 on: the code as written never shows a month after today's. */
  lemma InitialCursorAsWrittenNeverInFuture(today: Date, presses: seq<Press>)
    requires today.year >= 2000
    requires ClockMonotone(today, presses)
    ensures NotInFuture(RunAsWritten(InitialCursor(today), presses), LastToday(today, presses))
  {
    CursorAsWrittenNeverInFuture(InitialCursor(today), today, presses);
  }
}
