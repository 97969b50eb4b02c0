/**
 * The history page: transactions grouped into one bucket per calendar month
 * (in the order the months first appear), each bucket summarised with its
 * income, expenses and balance, and the summaries sorted most recent first.
 */
module History {
  import opened Wrappers
  import opened Calendar
  import opened Ledger

  // ---------------------------------------------------------------------------
  // Grouping
  // ---------------------------------------------------------------------------

  /** One entry of the grouping object: a month key and the transactions pushed under it. */
  datatype Bucket = Bucket(key: YearMonth, members: seq<Transaction>)

  /** The index of the bucket whose key is `k`, if there is one. */
  function FindBucket(bs: seq<Bucket>, k: YearMonth): (r: Option<nat>)
    ensures r.Some? ==> r.value < |bs| && bs[r.value].key == k
    ensures r.None? ==> forall i :: 0 <= i < |bs| ==> bs[i].key != k
  {
    if bs == [] then None
    else if bs[|bs| - 1].key == k then Some(|bs| - 1)
    else FindBucket(bs[..|bs| - 1], k)
  }

  /** The body of the grouping loop for one transaction: push onto its month's bucket, creating it when missing. */
  function Push(bs: seq<Bucket>, t: Transaction): seq<Bucket> {
    var k := MonthOf(t.date);
    match FindBucket(bs, k)
    case Some(i) => bs[i := Bucket(k, bs[i].members + [t])]
    case None => bs + [Bucket(k, [t])]
  }

  /** The grouping loop: every transaction, in list order, pushed onto its month's bucket. */
  function GroupByMonth(ts: seq<Transaction>): seq<Bucket> {
    if ts == [] then [] else Push(GroupByMonth(ts[..|ts| - 1]), ts[|ts| - 1])
  }

  /** All members of all buckets, bucket after bucket. */
  function FlattenBuckets(bs: seq<Bucket>): seq<Transaction> {
    if bs == [] then [] else bs[0].members + FlattenBuckets(bs[1..])
  }

  /** There is at most one bucket per month. */
  predicate DistinctBucketKeys(bs: seq<Bucket>) {
    forall i, j :: 0 <= i < j < |bs| ==> bs[i].key != bs[j].key
  }

  /** What the grouping object holds after the loop has run over `ts`. */
  predicate GroupsOf(ts: seq<Transaction>, bs: seq<Bucket>) {
    && DistinctBucketKeys(bs)
    && MembersAreMonths(ts, bs)
    && (forall i :: 0 <= i < |bs| ==> bs[i].members != [])
    && EveryMonthHasBucket(ts, bs)
    && multiset(FlattenBuckets(bs)) == multiset(ts)
  }

  lemma {:induction false} FlattenBucketsSnoc(bs: seq<Bucket>, b: Bucket)
    ensures FlattenBuckets(bs + [b]) == FlattenBuckets(bs) + b.members
    decreases |bs|
  {
    if bs == [] {
      assert [b][1..] == [];
    } else {
      assert (bs + [b])[1..] == bs[1..] + [b];
      FlattenBucketsSnoc(bs[1..], b);
    }
  }

  /** Pushing one transaction onto bucket `i` adds it once to the flattened contents. */
  lemma {:induction false} FlattenBucketsAppendAt(bs: seq<Bucket>, i: nat, t: Transaction)
    requires i < |bs|
    ensures multiset(FlattenBuckets(bs[i := Bucket(bs[i].key, bs[i].members + [t])]))
         == multiset(FlattenBuckets(bs)) + multiset{t}
    decreases i
  {
    var bs' := bs[i := Bucket(bs[i].key, bs[i].members + [t])];
    if i == 0 {
      assert bs'[1..] == bs[1..];
    } else {
      var tail := bs[1..];
      assert tail[i - 1] == bs[i];
      assert bs'[1..] == tail[i - 1 := Bucket(tail[i - 1].key, tail[i - 1].members + [t])];
      assert bs'[0] == bs[0];
      FlattenBucketsAppendAt(tail, i - 1, t);
    }
  }

  /** Every bucket's members are the monthly filter of its key. */
  predicate MembersAreMonths(ts: seq<Transaction>, bs: seq<Bucket>) {
    forall i :: 0 <= i < |bs| ==> bs[i].members == MonthlyTransactions(ts, bs[i].key)
  }

  /** Every transaction's month has a bucket. */
  predicate EveryMonthHasBucket(ts: seq<Transaction>, bs: seq<Bucket>) {
    forall t :: t in ts ==> exists i :: 0 <= i < |bs| && bs[i].key == MonthOf(t.date)
  }

  lemma PushExistingMembers(ts: seq<Transaction>, bs: seq<Bucket>, t: Transaction, i: nat)
    requires MembersAreMonths(ts, bs) && DistinctBucketKeys(bs)
    requires i < |bs| && bs[i].key == MonthOf(t.date)
    ensures MembersAreMonths(ts + [t], bs[i := Bucket(MonthOf(t.date), bs[i].members + [t])])
  {
    var bs' := bs[i := Bucket(MonthOf(t.date), bs[i].members + [t])];
    forall j | 0 <= j < |bs'|
      ensures bs'[j].members == MonthlyTransactions(ts + [t], bs'[j].key)
    {
      MonthlySnoc(ts, t, bs[j].key);
      if j != i {
        assert bs'[j] == bs[j];
        assert bs[j].members + [] == bs[j].members;
      } else {
        assert bs'[j] == Bucket(bs[i].key, bs[i].members + [t]);
      }
    }
  }

  lemma PushNewMembers(ts: seq<Transaction>, bs: seq<Bucket>, t: Transaction)
    requires MembersAreMonths(ts, bs) && EveryMonthHasBucket(ts, bs)
    requires forall i :: 0 <= i < |bs| ==> bs[i].key != MonthOf(t.date)
    ensures MembersAreMonths(ts + [t], bs + [Bucket(MonthOf(t.date), [t])])
  {
    var k := MonthOf(t.date);
    var bs' := bs + [Bucket(k, [t])];
    MonthlyEmptyIffAbsent(ts, k);
    forall j | 0 <= j < |bs'|
      ensures bs'[j].members == MonthlyTransactions(ts + [t], bs'[j].key)
    {
      MonthlySnoc(ts, t, bs'[j].key);
      if j < |bs| {
        assert bs[j].members + [] == bs[j].members;
      }
    }
  }

  lemma PushCoversMonths(ts: seq<Transaction>, bs: seq<Bucket>, t: Transaction)
    requires EveryMonthHasBucket(ts, bs)
    ensures EveryMonthHasBucket(ts + [t], Push(bs, t))
  {
    var bs' := Push(bs, t);
    assert |bs| <= |bs'|;
    assert forall j :: 0 <= j < |bs| ==> bs'[j].key == bs[j].key;
    var at := match FindBucket(bs, MonthOf(t.date)) case Some(i) => i case None => |bs|;
    assert bs'[at].key == MonthOf(t.date);
    forall u | u in ts + [t]
      ensures exists j :: 0 <= j < |bs'| && bs'[j].key == MonthOf(u.date)
    {
      if u in ts {
        var j :| 0 <= j < |bs| && bs[j].key == MonthOf(u.date);
        assert bs'[j].key == MonthOf(u.date);
      }
    }
  }

  lemma PushFlattens(ts: seq<Transaction>, bs: seq<Bucket>, t: Transaction)
    requires multiset(FlattenBuckets(bs)) == multiset(ts)
    ensures multiset(FlattenBuckets(Push(bs, t))) == multiset(ts + [t])
  {
    var k := MonthOf(t.date);
    match FindBucket(bs, k)
    case Some(i) =>
      assert Push(bs, t) == bs[i := Bucket(bs[i].key, bs[i].members + [t])];
      FlattenBucketsAppendAt(bs, i, t);
    case None =>
      FlattenBucketsSnoc(bs, Bucket(k, [t]));
  }

  lemma PushKeepsDistinct(bs: seq<Bucket>, t: Transaction)
    requires DistinctBucketKeys(bs)
    ensures DistinctBucketKeys(Push(bs, t))
    ensures forall i :: 0 <= i < |bs| && bs[i].members != [] ==> Push(bs, t)[i].members != []
    ensures forall i :: |bs| <= i < |Push(bs, t)| ==> Push(bs, t)[i].members != []
  {
  }

  /** One more transaction keeps the grouping invariant. */
  lemma PushKeepsGroups(ts: seq<Transaction>, bs: seq<Bucket>, t: Transaction)
    requires GroupsOf(ts, bs)
    ensures GroupsOf(ts + [t], Push(bs, t))
  {
    PushKeepsDistinct(bs, t);
    PushCoversMonths(ts, bs, t);
    PushFlattens(ts, bs, t);
    match FindBucket(bs, MonthOf(t.date))
    case Some(i) =>
      PushExistingMembers(ts, bs, t, i);
    case None =>
      PushNewMembers(ts, bs, t);
  }

  /**
   * The grouping loop partitions the list: one bucket per month present, none
   * empty, each holding exactly that month's transactions in list order, and
   * together holding every transaction exactly as often as the list does.
   */
  lemma {:induction false} GroupByMonthPartitions(ts: seq<Transaction>)
    ensures GroupsOf(ts, GroupByMonth(ts))
  {
    if ts != [] {
      var init := ts[..|ts| - 1];
      GroupByMonthPartitions(init);
      assert init + [ts[|ts| - 1]] == ts;
      PushKeepsGroups(init, GroupByMonth(init), ts[|ts| - 1]);
    }
  }

  // ---------------------------------------------------------------------------
  // Monthly summaries
  // ---------------------------------------------------------------------------

  /** The month names the page shows; a summary stores the name, and the sort maps it back to its position. */
  const MonthNames: seq<string> := ["January", "February", "March", "April", "May", "June",
    "July", "August", "September", "October", "November", "December"]

  /** `Array.prototype.indexOf`: the first position holding `x`, or -1 when there is none. */
  function IndexOf<T(==)>(s: seq<T>, x: T): (r: int)
    ensures -1 <= r < |s|
    ensures 0 <= r ==> s[r] == x && forall j :: 0 <= j < r ==> s[j] != x
    ensures r == -1 <==> x !in s
  {
    if s == [] then -1
    else if s[0] == x then 0
    else var r := IndexOf(s[1..], x); if r == -1 then -1 else r + 1
  }

  /** Length, first and third letter tell the twelve names apart. */
  function NameSignature(name: string): (int, char, char) {
    if |name| < 3 then (|name|, ' ', ' ') else (|name|, name[0], name[2])
  }

  lemma MonthNamesDistinct()
    ensures forall a, b :: 0 <= a < b < 12 ==> MonthNames[a] != MonthNames[b]
  {
    forall a, b | 0 <= a < b < 12
      ensures MonthNames[a] != MonthNames[b]
    {
      assert NameSignature(MonthNames[a]) != NameSignature(MonthNames[b]);
    }
  }

  /** Looking a month's name up again gives back the month. */
  lemma MonthNameIndex(m: MonthIndex)
    ensures IndexOf(MonthNames, MonthNames[m]) == m
  {
    MonthNamesDistinct();
  }

  /** One row of the history page. */
  datatype MonthGroup = MonthGroup(
    month: string,
    year: int,
    transactions: seq<Transaction>,
    totalIncome: real,
    totalExpenses: real,
    balance: real)

  /** The position of a group's month name in the name table (-1 for a name not in it). */
  function MonthNumber(g: MonthGroup): int {
    IndexOf(MonthNames, g.month)
  }

  /** The calendar month a group stands for. */
  function KeyOf(g: MonthGroup): YearMonth {
    var m := MonthNumber(g);
    YearMonth(g.year, if 0 <= m < 12 then m else 0)
  }

  /** Turns one bucket into a summary: name, year, members and their totals. */
  function Summarize(b: Bucket): MonthGroup {
    var totals := ComputeTotals(b.members);
    MonthGroup(MonthNames[b.key.month], b.key.year, b.members, totals.income, totals.expenses, totals.balance)
  }

  function Summaries(bs: seq<Bucket>): (gs: seq<MonthGroup>)
    ensures |gs| == |bs|
    ensures forall i :: 0 <= i < |bs| ==> gs[i] == Summarize(bs[i])
  {
    if bs == [] then [] else [Summarize(bs[0])] + Summaries(bs[1..])
  }

  /**
   * A summary stands for its bucket's month, keeps the bucket's members and
   * carries their totals, with the balance equal to income minus expenses.
   */
  lemma SummarizeFaithful(b: Bucket)
    ensures var g := Summarize(b);
      && MonthNumber(g) == b.key.month
      && KeyOf(g) == b.key
      && g.transactions == b.members
      && g.totalIncome == ComputeTotals(b.members).income
      && g.totalExpenses == ComputeTotals(b.members).expenses
      && g.balance == g.totalIncome - g.totalExpenses
      && g.balance == NetFlow(b.members)
  {
    MonthNameIndex(b.key.month);
    BalanceIsNetFlow(b.members);
  }

  // ---------------------------------------------------------------------------
  // Sorting, most recent first
  // ---------------------------------------------------------------------------

  /** The sort comparator: negative when `a` belongs before `b`. */
  function Compare(a: MonthGroup, b: MonthGroup): int {
    if b.year != a.year then b.year - a.year
    else MonthNumber(b) - MonthNumber(a)
  }

  /** `a` is a strictly more recent month than `b`, by year and then month position. */
  predicate Newer(a: MonthGroup, b: MonthGroup) {
    a.year > b.year || (a.year == b.year && MonthNumber(a) > MonthNumber(b))
  }

  predicate SameMonth(a: MonthGroup, b: MonthGroup) {
    a.year == b.year && MonthNumber(a) == MonthNumber(b)
  }

  /** No two groups stand for the same month. */
  predicate DistinctMonths(gs: seq<MonthGroup>) {
    forall i, j :: 0 <= i < j < |gs| ==> !SameMonth(gs[i], gs[j])
  }

  /** Every group is strictly more recent than every later one. */
  predicate NewestFirst(gs: seq<MonthGroup>) {
    forall i, j :: 0 <= i < j < |gs| ==> Newer(gs[i], gs[j])
  }

  /** Insertion of one group into a sorted list, ahead of any it does not compare after. */
  function Insert(x: MonthGroup, s: seq<MonthGroup>): (r: seq<MonthGroup>)
    ensures multiset(r) == multiset(s) + multiset{x}
  {
    if s == [] then [x]
    else if Compare(x, s[0]) <= 0 then [x] + s
    else
      assert s == [s[0]] + s[1..];
      [s[0]] + Insert(x, s[1..])
  }

  /** A stable sort by the comparator. */
  function SortGroups(gs: seq<MonthGroup>): (r: seq<MonthGroup>)
    ensures multiset(r) == multiset(gs)
  {
    if gs == [] then []
    else
      assert gs == [gs[0]] + gs[1..];
      Insert(gs[0], SortGroups(gs[1..]))
  }

  /** The comparator orders distinct months most recent first. */
  lemma CompareIsRecency(a: MonthGroup, b: MonthGroup)
    ensures Compare(a, b) < 0 <==> Newer(a, b)
    ensures Compare(a, b) == 0 <==> SameMonth(a, b)
  {
  }

  lemma NewestFirstCons(h: MonthGroup, r: seq<MonthGroup>)
    requires NewestFirst(r)
    requires forall y :: y in r ==> Newer(h, y)
    ensures NewestFirst([h] + r)
  {
    forall i, j | 0 <= i < j < |r| + 1
      ensures Newer(([h] + r)[i], ([h] + r)[j])
    {
      assert ([h] + r)[j] == r[j - 1];
      if i > 0 {
        assert ([h] + r)[i] == r[i - 1];
      } else {
        assert r[j - 1] in r;
      }
    }
  }

  lemma NewestFirstTail(s: seq<MonthGroup>)
    requires NewestFirst(s) && s != []
    ensures NewestFirst(s[1..])
    ensures forall y :: y in s[1..] ==> Newer(s[0], y)
  {
    var tail := s[1..];
    forall i, j | 0 <= i < j < |tail|
      ensures Newer(tail[i], tail[j])
    {
      assert tail[i] == s[i + 1] && tail[j] == s[j + 1];
    }
    forall y | y in tail
      ensures Newer(s[0], y)
    {
      var j :| 0 <= j < |tail| && tail[j] == y;
      assert s[j + 1] == y;
    }
  }

  lemma {:induction false} InsertNewestFirst(x: MonthGroup, s: seq<MonthGroup>)
    requires NewestFirst(s)
    requires forall y :: y in s ==> !SameMonth(x, y)
    ensures NewestFirst(Insert(x, s))
    decreases |s|
  {
    if s == [] {
    } else if Compare(x, s[0]) <= 0 {
      assert Insert(x, s) == [x] + s;
      CompareIsRecency(x, s[0]);
      NewestFirstTail(s);
      NewestFirstCons(x, s);
    } else {
      var tail := s[1..];
      assert Insert(x, s) == [s[0]] + Insert(x, tail);
      CompareIsRecency(x, s[0]);
      NewestFirstTail(s);
      assert forall y :: y in tail ==> y in s;
      InsertNewestFirst(x, tail);
      InsertKeepsBound(s[0], x, tail);
      NewestFirstCons(s[0], Insert(x, tail));
    }
  }

  /** A group newer than everything in a list and than `x` is newer than everything after inserting `x`. */
  lemma InsertKeepsBound(h: MonthGroup, x: MonthGroup, s: seq<MonthGroup>)
    requires Newer(h, x)
    requires forall y :: y in s ==> Newer(h, y)
    ensures forall y :: y in Insert(x, s) ==> Newer(h, y)
  {
    forall y | y in Insert(x, s)
      ensures Newer(h, y)
    {
      assert y in multiset(Insert(x, s));
    }
  }

  /** Sorting groups of pairwise distinct months puts them strictly most recent first. */
  lemma {:induction false} SortNewestFirst(gs: seq<MonthGroup>)
    requires DistinctMonths(gs)
    ensures NewestFirst(SortGroups(gs))
  {
    if gs != [] {
      var tail := gs[1..];
      assert DistinctMonths(tail) by {
        forall i, j | 0 <= i < j < |tail|
          ensures !SameMonth(tail[i], tail[j])
        {
          assert tail[i] == gs[i + 1] && tail[j] == gs[j + 1];
        }
      }
      SortNewestFirst(tail);
      forall y | y in SortGroups(tail)
        ensures !SameMonth(gs[0], y)
      {
        assert y in multiset(SortGroups(tail));
        assert y in tail;
        var j :| 0 <= j < |tail| && tail[j] == y;
        assert gs[j + 1] == y;
      }
      InsertNewestFirst(gs[0], SortGroups(tail));
    }
  }

  /** In a newest-first list every group is the head or older than the head. */
  lemma HeadIsNewest(s: seq<MonthGroup>, x: MonthGroup)
    requires NewestFirst(s) && x in s
    ensures x == s[0] || Newer(s[0], x)
  {
    var k :| 0 <= k < |s| && s[k] == x;
    if k > 0 {
      assert Newer(s[0], s[k]);
    }
  }

  /** Two lists with equal multisets and equal heads have tails with equal multisets. */
  lemma SameTailMultiset<T>(a: seq<T>, b: seq<T>)
    requires multiset(a) == multiset(b) && a != [] && b != [] && a[0] == b[0]
    ensures multiset(a[1..]) == multiset(b[1..])
  {
    CutOut(a, 0);
    CutOut(b, 0);
    assert a[..0] + a[1..] == a[1..];
    assert b[..0] + b[1..] == b[1..];
  }

  /** Two newest-first orderings of the same groups start with the same group. */
  lemma SameHead(a: seq<MonthGroup>, b: seq<MonthGroup>)
    requires multiset(a) == multiset(b) && a != []
    requires NewestFirst(a) && NewestFirst(b)
    ensures b != [] && a[0] == b[0]
  {
    assert a[0] in multiset(b);
    assert b[0] in multiset(a);
    HeadIsNewest(b, a[0]);
    HeadIsNewest(a, b[0]);
  }

  /**
   * Two newest-first orderings of the same groups are the same list: whatever
   * algorithm the sort uses, its result is the one `SortGroups` computes.
   */
  lemma {:induction false} NewestFirstUnique(a: seq<MonthGroup>, b: seq<MonthGroup>)
    requires multiset(a) == multiset(b)
    requires NewestFirst(a) && NewestFirst(b)
    ensures a == b
    decreases |a|
  {
    if a == [] {
      assert |b| == |multiset(b)| == 0;
    } else {
      SameHead(a, b);
      SameTailMultiset(a, b);
      NewestFirstTail(a);
      NewestFirstTail(b);
      NewestFirstUnique(a[1..], b[1..]);
      assert a == [a[0]] + a[1..];
      assert b == [b[0]] + b[1..];
    }
  }

  /** The sort yields any newest-first arrangement of its input. */
  lemma SortIsNewestFirstArrangement(gs: seq<MonthGroup>, sorted: seq<MonthGroup>)
    requires DistinctMonths(gs)
    requires multiset(sorted) == multiset(gs) && NewestFirst(sorted)
    ensures SortGroups(gs) == sorted
  {
    SortNewestFirst(gs);
    NewestFirstUnique(SortGroups(gs), sorted);
  }

  /** "December" and "January" sit at positions 11 and 0 of the name table. */
  lemma DecemberAndJanuary(g: MonthGroup)
    ensures g.month == "December" ==> MonthNumber(g) == 11
    ensures g.month == "January" ==> MonthNumber(g) == 0
  {
    MonthNameIndex(0);
    MonthNameIndex(11);
    assert MonthNames[0] == "January" && MonthNames[11] == "December";
  }

  /** Three groups in strictly decreasing recency form a newest-first list, and any arrangement of them has distinct months. */
  lemma ThreeNewestFirst(a: MonthGroup, b: MonthGroup, c: MonthGroup)
    requires Newer(a, b) && Newer(a, c) && Newer(b, c)
    ensures NewestFirst([a, b, c])
    ensures DistinctMonths([b, a, c])
  {
    var s := [a, b, c];
    assert s[0] == a && s[1] == b && s[2] == c;
    forall i, j | 0 <= i < j < 3
      ensures Newer(s[i], s[j])
    {
      if i == 0 && j == 1 {
      } else if i == 0 {
        assert j == 2;
      } else {
        assert i == 1 && j == 2;
      }
    }
    var t := [b, a, c];
    assert t[0] == b && t[1] == a && t[2] == c;
    forall i, j | 0 <= i < j < 3
      ensures !SameMonth(t[i], t[j])
    {
      if i == 0 && j == 1 {
      } else if i == 0 {
        assert j == 2;
      } else {
        assert i == 1 && j == 2;
      }
    }
  }

  /** Swapping the first two of three entries keeps the multiset. */
  lemma SwapFront<T>(a: T, b: T, c: T)
    ensures multiset([b, a, c]) == multiset([a, b, c])
  {
  }

  /** December 2024, January 2025 and January 2024 sort as January 2025, December 2024, January 2024. */
  lemma SortExample(dec24: MonthGroup, jan25: MonthGroup, jan24: MonthGroup)
    requires dec24.year == 2024 && dec24.month == "December"
    requires jan25.year == 2025 && jan25.month == "January"
    requires jan24.year == 2024 && jan24.month == "January"
    ensures SortGroups([dec24, jan25, jan24]) == [jan25, dec24, jan24]
  {
    DecemberAndJanuary(dec24);
    DecemberAndJanuary(jan25);
    DecemberAndJanuary(jan24);
    assert Newer(jan25, dec24) && Newer(jan25, jan24) && Newer(dec24, jan24);
    ThreeNewestFirst(jan25, dec24, jan24);
    SwapFront(dec24, jan25, jan24);
    SortIsNewestFirstArrangement([dec24, jan25, jan24], [jan25, dec24, jan24]);
  }

  // ---------------------------------------------------------------------------
  // The history page end to end
  // ---------------------------------------------------------------------------

  /** All transactions of all groups, group after group. */
  function FlattenGroups(gs: seq<MonthGroup>): seq<Transaction> {
    if gs == [] then [] else gs[0].transactions + FlattenGroups(gs[1..])
  }

  /** The sum of the groups' transaction counts. */
  function TransactionCount(gs: seq<MonthGroup>): nat {
    if gs == [] then 0 else |gs[0].transactions| + TransactionCount(gs[1..])
  }

  /** The grouped, summarised and sorted history of a transaction list. */
  function HistoryOf(ts: seq<Transaction>): seq<MonthGroup> {
    SortGroups(Summaries(GroupByMonth(ts)))
  }

  lemma {:induction false} TransactionCountIsLength(gs: seq<MonthGroup>)
    ensures TransactionCount(gs) == |FlattenGroups(gs)|
  {
    if gs != [] {
      TransactionCountIsLength(gs[1..]);
    }
  }

  lemma {:induction false} InsertFlatten(x: MonthGroup, s: seq<MonthGroup>)
    ensures multiset(FlattenGroups(Insert(x, s))) == multiset(x.transactions) + multiset(FlattenGroups(s))
    decreases |s|
  {
    if s != [] && Compare(x, s[0]) > 0 {
      var r := Insert(x, s);
      assert r == [s[0]] + Insert(x, s[1..]);
      assert r[1..] == Insert(x, s[1..]);
      InsertFlatten(x, s[1..]);
    } else if s != [] {
      assert ([x] + s)[1..] == s;
    }
  }

  lemma {:induction false} SortFlatten(gs: seq<MonthGroup>)
    ensures multiset(FlattenGroups(SortGroups(gs))) == multiset(FlattenGroups(gs))
  {
    if gs != [] {
      SortFlatten(gs[1..]);
      InsertFlatten(gs[0], SortGroups(gs[1..]));
    }
  }

  lemma {:induction false} SummariesFlatten(bs: seq<Bucket>)
    ensures FlattenGroups(Summaries(bs)) == FlattenBuckets(bs)
  {
    if bs != [] {
      assert Summaries(bs)[1..] == Summaries(bs[1..]);
      SummariesFlatten(bs[1..]);
    }
  }

  lemma SummariesDistinct(bs: seq<Bucket>)
    requires DistinctBucketKeys(bs)
    ensures DistinctMonths(Summaries(bs))
  {
    forall i, j | 0 <= i < j < |bs|
      ensures !SameMonth(Summaries(bs)[i], Summaries(bs)[j])
    {
      SummarizeFaithful(bs[i]);
      SummarizeFaithful(bs[j]);
    }
  }

  /** Every group on the page is the summary of one bucket of the grouping loop. */
  lemma HistoryFromBuckets(ts: seq<Transaction>, g: MonthGroup)
    requires g in HistoryOf(ts)
    ensures exists i :: 0 <= i < |GroupByMonth(ts)| && g == Summarize(GroupByMonth(ts)[i])
  {
    var gs := Summaries(GroupByMonth(ts));
    assert g in multiset(SortGroups(gs));
    assert g in gs;
  }

  /**
   * Every group on the history page stands for one calendar month, is not
   * empty, holds exactly that month's transactions in list order, and carries
   * their income, expenses and balance.
   */
  lemma HistoryGroupsAreMonths(ts: seq<Transaction>)
    ensures forall g :: g in HistoryOf(ts) ==>
      && g.month in MonthNames
      && MonthNumber(g) == KeyOf(g).month
      && g.transactions == MonthlyTransactions(ts, KeyOf(g))
      && g.transactions != []
      && g.totalIncome == ComputeTotals(g.transactions).income
      && g.totalExpenses == ComputeTotals(g.transactions).expenses
      && g.balance == g.totalIncome - g.totalExpenses
  {
    var bs := GroupByMonth(ts);
    GroupByMonthPartitions(ts);
    forall g | g in HistoryOf(ts)
      ensures g.month in MonthNames
      ensures MonthNumber(g) == KeyOf(g).month
      ensures g.transactions == MonthlyTransactions(ts, KeyOf(g))
      ensures g.transactions != []
      ensures g.totalIncome == ComputeTotals(g.transactions).income
      ensures g.totalExpenses == ComputeTotals(g.transactions).expenses
      ensures g.balance == g.totalIncome - g.totalExpenses
    {
      HistoryFromBuckets(ts, g);
      var i :| 0 <= i < |bs| && g == Summarize(bs[i]);
      SummarizeFaithful(bs[i]);
    }
  }

  /**
   * Two transactions share a group exactly when they share a calendar month,
   * whatever their day: a listed transaction is in a group if and only if it
   * is dated in that group's month.
   */
  lemma HistoryGroupsByMonth(ts: seq<Transaction>)
    ensures forall g, t :: g in HistoryOf(ts) && t in ts ==>
      (t in g.transactions <==> MonthOf(t.date) == KeyOf(g))
  {
    HistoryGroupsAreMonths(ts);
  }

  /** Every transaction's month has a group on the page. */
  lemma HistoryCoversEveryMonth(ts: seq<Transaction>)
    ensures forall t :: t in ts ==> exists i :: 0 <= i < |HistoryOf(ts)| && KeyOf(HistoryOf(ts)[i]) == MonthOf(t.date)
  {
    var bs := GroupByMonth(ts);
    var gs := Summaries(bs);
    GroupByMonthPartitions(ts);
    forall t | t in ts
      ensures exists i :: 0 <= i < |HistoryOf(ts)| && KeyOf(HistoryOf(ts)[i]) == MonthOf(t.date)
    {
      var j :| 0 <= j < |bs| && bs[j].key == MonthOf(t.date);
      SummarizeFaithful(bs[j]);
      assert gs[j] in multiset(HistoryOf(ts));
      var i :| 0 <= i < |HistoryOf(ts)| && HistoryOf(ts)[i] == gs[j];
    }
  }

  /**
   * The groups partition the list: together they hold every transaction
   * exactly as often as the list does, so their sizes add up to its length.
   */
  lemma HistoryPartitions(ts: seq<Transaction>)
    ensures multiset(FlattenGroups(HistoryOf(ts))) == multiset(ts)
    ensures TransactionCount(HistoryOf(ts)) == |ts|
  {
    var bs := GroupByMonth(ts);
    GroupByMonthPartitions(ts);
    SummariesFlatten(bs);
    SortFlatten(Summaries(bs));
    TransactionCountIsLength(HistoryOf(ts));
    assert |multiset(FlattenGroups(HistoryOf(ts)))| == |multiset(ts)|;
  }

  /** The groups come most recent first: by year descending, then by month descending; so no month appears twice. */
  lemma HistoryNewestFirst(ts: seq<Transaction>)
    ensures forall i, j :: 0 <= i < j < |HistoryOf(ts)| ==> Before(KeyOf(HistoryOf(ts)[j]), KeyOf(HistoryOf(ts)[i]))
    ensures forall i, j :: 0 <= i < j < |HistoryOf(ts)| ==> KeyOf(HistoryOf(ts)[i]) != KeyOf(HistoryOf(ts)[j])
  {
    var bs := GroupByMonth(ts);
    var h := HistoryOf(ts);
    GroupByMonthPartitions(ts);
    SummariesDistinct(bs);
    SortNewestFirst(Summaries(bs));
    HistoryGroupsAreMonths(ts);
    forall i, j | 0 <= i < j < |h|
      ensures Before(KeyOf(h[j]), KeyOf(h[i]))
    {
      assert h[i] in h && h[j] in h;
      assert Newer(h[i], h[j]);
    }
  }

  /**
   * Any newest-first arrangement of the month summaries is the history: the
   * order the page shows does not depend on the sorting algorithm.
   */
  lemma HistoryOrderIsForced(ts: seq<Transaction>, gs: seq<MonthGroup>)
    requires multiset(gs) == multiset(Summaries(GroupByMonth(ts)))
    requires NewestFirst(gs)
    ensures gs == HistoryOf(ts)
  {
    var bs := GroupByMonth(ts);
    GroupByMonthPartitions(ts);
    SummariesDistinct(bs);
    SortNewestFirst(Summaries(bs));
    NewestFirstUnique(gs, HistoryOf(ts));
  }

  /** The sum of the groups' income figures. */
  function IncomeOfGroups(gs: seq<MonthGroup>): real {
    if gs == [] then 0.0 else gs[0].totalIncome + IncomeOfGroups(gs[1..])
  }

  /** The sum of the groups' expense figures. */
  function ExpensesOfGroups(gs: seq<MonthGroup>): real {
    if gs == [] then 0.0 else gs[0].totalExpenses + ExpensesOfGroups(gs[1..])
  }

  lemma {:induction false} GroupFiguresAreFlattenedTotals(gs: seq<MonthGroup>)
    requires forall g :: g in gs ==> g.totalIncome == ComputeTotals(g.transactions).income
    requires forall g :: g in gs ==> g.totalExpenses == ComputeTotals(g.transactions).expenses
    ensures IncomeOfGroups(gs) == ComputeTotals(FlattenGroups(gs)).income
    ensures ExpensesOfGroups(gs) == ComputeTotals(FlattenGroups(gs)).expenses
  {
    if gs != [] {
      assert gs[0] in gs;
      assert forall g :: g in gs[1..] ==> g in gs;
      GroupFiguresAreFlattenedTotals(gs[1..]);
      TotalsConcat(gs[0].transactions, FlattenGroups(gs[1..]));
    }
  }

  /**
   * The history's monthly income and expense figures add up to the income
   * and expenses of the whole list: no transaction is counted twice or lost.
   */
  lemma HistoryFiguresAddUp(ts: seq<Transaction>)
    ensures IncomeOfGroups(HistoryOf(ts)) == ComputeTotals(ts).income
    ensures ExpensesOfGroups(HistoryOf(ts)) == ComputeTotals(ts).expenses
  {
    HistoryGroupsAreMonths(ts);
    GroupFiguresAreFlattenedTotals(HistoryOf(ts));
    HistoryPartitions(ts);
    TotalsPermutation(FlattenGroups(HistoryOf(ts)), ts);
  }

  /** The page is empty exactly when there are no transactions. */
  lemma HistoryEmptyExactlyWhenNoTransactions(ts: seq<Transaction>)
    ensures HistoryOf(ts) == [] <==> ts == []
  {
    HistoryPartitions(ts);
    if HistoryOf(ts) == [] {
      assert TransactionCount(HistoryOf(ts)) == 0;
    } else {
      HistoryGroupsAreMonths(ts);
      assert HistoryOf(ts)[0] in HistoryOf(ts);
    }
  }

  // ---------------------------------------------------------------------------
  // The grouping object's string keys
  // ---------------------------------------------------------------------------

  predicate IsDigit(c: char) {
    '0' <= c <= '9'
  }

  predicate AllDigits(s: string) {
    forall i :: 0 <= i < |s| ==> IsDigit(s[i])
  }

  function DigitChar(d: int): (c: char)
    requires 0 <= d < 10
    ensures IsDigit(c)
  {
    ('0' as int + d) as char
  }

  /** A natural number in decimal, as string interpolation writes it. */
  function NatToString(n: nat): (s: string)
    ensures |s| >= 1 && AllDigits(s)
  {
    if n < 10 then [DigitChar(n)] else NatToString(n / 10) + [DigitChar(n % 10)]
  }

  /** An integer in decimal, with a leading minus sign when negative. */
  function IntToString(n: int): string {
    if n < 0 then "-" + NatToString(-n) else NatToString(n)
  }

  /** The value of a string of decimal digits; the empty string is 0. */
  function DigitsValue(s: string): nat
    requires AllDigits(s)
  {
    if s == [] then 0 else DigitsValue(s[..|s| - 1]) * 10 + (s[|s| - 1] as int - '0' as int)
  }

  /**
   * `Number` applied to a piece of a split key: the empty string and digit
   * strings convert to their value, anything else to NaN (`None`).
   */
  function NumberOf(s: string): Option<int> {
    if AllDigits(s) then Some(DigitsValue(s)) else None
  }

  /** The grouping object's key for a month: the year, a dash, the month number. */
  function MonthKey(ym: YearMonth): string {
    IntToString(ym.year) + "-" + NatToString(ym.month)
  }

  /** `String.prototype.split` on the dash: the pieces between dashes, at least one. */
  function SplitOnDash(s: string): (r: seq<string>)
    ensures |r| >= 1
  {
    if s == [] then [[]]
    else
      var rest := SplitOnDash(s[1..]);
      if s[0] == '-' then [[]] + rest else [[s[0]] + rest[0]] + rest[1..]
  }

  /**
   * Reading a key back: split it at its dashes and convert the first two
   * pieces to numbers; a missing second piece is undefined (`None`).
   */
  function DecodeKey(key: string): (Option<int>, Option<int>) {
    var pieces := SplitOnDash(key);
    (NumberOf(pieces[0]), if |pieces| > 1 then NumberOf(pieces[1]) else None)
  }

  lemma {:induction false} DigitsRoundTrip(n: nat)
    ensures DigitsValue(NatToString(n)) == n
  {
    if n >= 10 {
      var s := NatToString(n);
      assert s[..|s| - 1] == NatToString(n / 10);
      DigitsRoundTrip(n / 10);
    }
  }

  lemma {:induction false} SplitWithoutDash(s: string)
    requires AllDigits(s)
    ensures SplitOnDash(s) == [s]
  {
    if s != [] {
      SplitWithoutDash(s[1..]);
      assert [s[0]] + s[1..] == s;
    }
  }

  lemma {:induction false} SplitAtFirstDash(a: string, b: string)
    requires AllDigits(a)
    ensures SplitOnDash(a + "-" + b) == [a] + SplitOnDash(b)
  {
    if a == [] {
      assert a + "-" + b == "-" + b;
      assert ("-" + b)[1..] == b;
    } else {
      SplitAtFirstDash(a[1..], b);
      assert (a + "-" + b)[1..] == a[1..] + "-" + b;
      assert [a[0]] + a[1..] == a;
    }
  }

  /** Two digit strings joined by a dash decode to the two numbers they were written from. */
  lemma DecodeDigitsKey(n: nat, m: nat)
    ensures DecodeKey(NatToString(n) + "-" + NatToString(m)) == (Some(n as int), Some(m as int))
  {
    var y, d := NatToString(n), NatToString(m);
    SplitAtFirstDash(y, d);
    SplitWithoutDash(d);
    DigitsRoundTrip(n);
    DigitsRoundTrip(m);
  }

  /**
   * For a month of a year from 0 on, decoding the key gives back the year
   * and month it was made from.
   */
  lemma DecodeMonthKey(ym: YearMonth)
    requires ym.year >= 0
    ensures DecodeKey(MonthKey(ym)) == (Some(ym.year), Some(ym.month as int))
  {
    DecodeDigitsKey(ym.year, ym.month);
  }

  /** A key starts with a minus sign exactly when its year is negative. */
  lemma KeySign(ym: YearMonth)
    ensures MonthKey(ym)[0] == '-' <==> ym.year < 0
  {
    if ym.year >= 0 {
      assert MonthKey(ym)[0] == NatToString(ym.year)[0];
      assert IsDigit(NatToString(ym.year)[0]);
    }
  }

  /** Keys of distinct months are distinct, so grouping by key is grouping by calendar month. */
  lemma MonthKeyInjective(a: YearMonth, b: YearMonth)
    ensures MonthKey(a) == MonthKey(b) <==> a == b
  {
    KeySign(a);
    KeySign(b);
    if MonthKey(a) == MonthKey(b) {
      if a.year >= 0 && b.year >= 0 {
        DecodeMonthKey(a);
        DecodeMonthKey(b);
      } else if a.year < 0 && b.year < 0 {
        assert MonthKey(a)[1..] == NatToString(-a.year) + "-" + NatToString(a.month);
        assert MonthKey(b)[1..] == NatToString(-b.year) + "-" + NatToString(b.month);
        DecodeDigitsKey(-a.year, a.month);
        DecodeDigitsKey(-b.year, b.month);
      }
    }
  }

  /**
   * For a year of 0 or later, the year and month read back from a bucket's key
   * are the summary's year and the position of its month name: taking them
   * from the bucket's month, as `Summarize` does, gives what the page shows.
   */
  lemma SummaryMatchesDecodedKey(b: Bucket)
    requires b.key.year >= 0
    ensures DecodeKey(MonthKey(b.key)).0 == Some(Summarize(b).year)
    ensures DecodeKey(MonthKey(b.key)).1.Some?
    ensures var m := DecodeKey(MonthKey(b.key)).1.value; 0 <= m < 12 && MonthNames[m] == Summarize(b).month
  {
    DecodeMonthKey(b.key);
  }

  /** The key of April of year -5 splits into "", "5" and "3", so it reads back as year 0 and month 5 (June). */
  lemma NegativeYearKeyMisread()
    ensures MonthKey(YearMonth(-5, 3)) == "-5-3"
    ensures DecodeKey(MonthKey(YearMonth(-5, 3))) == (Some(0), Some(5))
  {
    assert MonthKey(YearMonth(-5, 3)) == "-5-3";
    assert "-5-3" == "" + "-" + "5-3" && "5-3" == "5" + "-" + "3";
    SplitAtFirstDash("", "5-3");
    SplitAtFirstDash("5", "3");
    SplitWithoutDash("3");
    assert SplitOnDash("-5-3") == ["", "5", "3"];
  }
}
