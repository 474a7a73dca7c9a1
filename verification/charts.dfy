/** The two chart datasets (`updateCharts`): spending per category for the
    pie chart and income/expense per month for the bar chart. */
module Charts {
  import opened Text
  import opened Seqs
  import opened Txn

  // ---------------------------------------------------------------------
  // Pie chart: expense amount per category, in first-encountered order.

  /** One pie segment. */
  datatype Slice = Slice(name: string, value: int)

  /** The segment label of an expense: its category, or `"Other"` when the
      category is empty. */
  function CategoryLabel(t: Txn): string {
    if t.category == "" then "Other" else t.category
  }

  /** The segment names, in order. */
  function Labels(e: seq<Slice>): (r: seq<string>)
    ensures |r| == |e|
    ensures forall i :: 0 <= i < |e| ==> r[i] == e[i].name
    decreases |e|
  {
    if e == [] then [] else [e[0].name] + Labels(e[1..])
  }

  ghost predicate DistinctLabels(e: seq<Slice>) {
    forall i, j :: 0 <= i < j < |e| ==> e[i].name != e[j].name
  }

  /** The total value under label `k`. */
  function ValueOf(e: seq<Slice>, k: string): int
    decreases |e|
  {
    if e == [] then 0 else (if e[0].name == k then e[0].value else 0) + ValueOf(e[1..], k)
  }

  function SumValues(e: seq<Slice>): int
    decreases |e|
  {
    if e == [] then 0 else e[0].value + SumValues(e[1..])
  }

  /** `byCategory[k] = (byCategory[k] || 0) + a`: adds to the segment named
      `k`, or appends a new segment when there is none. */
  function Accumulate(e: seq<Slice>, k: string, a: int): (r: seq<Slice>)
    ensures Labels(r) == if k in Labels(e) then Labels(e) else Labels(e) + [k]
    decreases |e|
  {
    if e == [] then [Slice(k, a)]
    else if e[0].name == k then [Slice(k, e[0].value + a)] + e[1..]
    else
      var rest := Accumulate(e[1..], k, a);
      LabelsCons(e[0], rest);
      LabelsCons(e[0], e[1..]);
      assert [e[0]] + e[1..] == e;
      [e[0]] + rest
  }

  lemma LabelsCons(x: Slice, e: seq<Slice>)
    ensures Labels([x] + e) == [x.name] + Labels(e)
  {
    assert ([x] + e)[1..] == e;
  }

  /** Accumulating adds `a` under `k` and nothing under any other name. */
  lemma {:induction false} AccumulateValues(e: seq<Slice>, k: string, a: int, j: string)
    ensures ValueOf(Accumulate(e, k, a), j) == ValueOf(e, j) + (if j == k then a else 0)
    decreases |e|
  {
    if e != [] && e[0].name != k {
      AccumulateValues(e[1..], k, a, j);
      var r := Accumulate(e, k, a);
      assert r[1..] == Accumulate(e[1..], k, a);
    } else if e != [] {
      var r := Accumulate(e, k, a);
      assert r[1..] == e[1..];
    }
  }

  /** Accumulating adds `a` to the total of all segments. */
  lemma {:induction false} AccumulateSum(e: seq<Slice>, k: string, a: int)
    ensures SumValues(Accumulate(e, k, a)) == SumValues(e) + a
    decreases |e|
  {
    if e != [] && e[0].name != k {
      AccumulateSum(e[1..], k, a);
      var r := Accumulate(e, k, a);
      assert r[1..] == Accumulate(e[1..], k, a);
    } else if e != [] {
      var r := Accumulate(e, k, a);
      assert r[1..] == e[1..];
    }
  }

  /** Accumulating keeps segment names distinct. */
  lemma AccumulateDistinct(e: seq<Slice>, k: string, a: int)
    requires DistinctLabels(e)
    ensures DistinctLabels(Accumulate(e, k, a))
  {
    var r := Accumulate(e, k, a);
    var n := Labels(r);
    forall i, j | 0 <= i < j < |r| ensures r[i].name != r[j].name {
      assert n[i] == r[i].name && n[j] == r[j].name;
      if j >= |e| {
        assert k !in Labels(e);
        assert n[i] == Labels(e)[i];
      } else {
        assert n[i] == Labels(e)[i] == e[i].name && n[j] == Labels(e)[j] == e[j].name;
      }
    }
  }

  /** The per-category sums of the expense records, labels in the order they
      are first met. */
  function CategoryTotals(s: seq<Txn>): (r: seq<Slice>)
    ensures |r| <= |s|
    decreases |s|
  {
    if s == [] then []
    else
      var t := s[|s| - 1];
      var e := CategoryTotals(s[..|s| - 1]);
      if t.kind == Expense then Accumulate(e, CategoryLabel(t), t.amount) else e
  }

  /** The placeholder pie shown when there is nothing to plot. */
  const NoExpenses: seq<Slice> := [Slice("No expenses", 1)]

  /** The pie dataset: the category sums, or the placeholder when the list
      holds no expense. */
  function CategoryBreakdown(s: seq<Txn>): (r: seq<Slice>)
    ensures r != []
  {
    var e := CategoryTotals(s);
    if e == [] then NoExpenses else e
  }

  /** The expenses whose segment label is `k`. */
  function ExpenseLabelled(k: string): Txn -> bool {
    (t: Txn) => t.kind == Expense && CategoryLabel(t) == k
  }

  /** Segment names stay distinct. */
  lemma {:induction false} CategoryTotalsDistinct(s: seq<Txn>)
    ensures DistinctLabels(CategoryTotals(s))
    decreases |s|
  {
    if s != [] {
      var s', t := s[..|s| - 1], s[|s| - 1];
      CategoryTotalsDistinct(s');
      if t.kind == Expense {
        AccumulateDistinct(CategoryTotals(s'), CategoryLabel(t), t.amount);
      }
    }
  }

  /** A label is present exactly when some expense carries it. */
  lemma {:induction false} CategoryTotalsLabels(s: seq<Txn>, k: string)
    ensures k in Labels(CategoryTotals(s)) <==> exists t :: t in s && t.kind == Expense && CategoryLabel(t) == k
    decreases |s|
  {
    if s != [] {
      var s', t := s[..|s| - 1], s[|s| - 1];
      assert s == s' + [t];
      CategoryTotalsLabels(s', k);
      assert forall u :: u in s <==> u in s' || u == t;
    }
  }

  /** The value under a label is the sum of the expenses carrying it. */
  lemma {:induction false} CategoryTotalsValue(s: seq<Txn>, k: string)
    ensures ValueOf(CategoryTotals(s), k) == SumBy(Filter(ExpenseLabelled(k), s), Amount)
    decreases |s|
  {
    if s != [] {
      var s', t := s[..|s| - 1], s[|s| - 1];
      CategoryTotalsValue(s', k);
      if t.kind == Expense {
        AccumulateValues(CategoryTotals(s'), CategoryLabel(t), t.amount, k);
      }
      SumFilterLast(ExpenseLabelled(k), s, Amount);
    }
  }

  /** The values add up to the expense total. */
  lemma {:induction false} CategoryTotalsSum(s: seq<Txn>)
    ensures SumValues(CategoryTotals(s)) == SumBy(Filter(IsExpense, s), Amount)
    decreases |s|
  {
    if s != [] {
      var s', t := s[..|s| - 1], s[|s| - 1];
      CategoryTotalsSum(s');
      if t.kind == Expense {
        AccumulateSum(CategoryTotals(s'), CategoryLabel(t), t.amount);
      }
      SumFilterLast(IsExpense, s, Amount);
    }
  }

  /** Each label appears once, labels are exactly those of the expenses, and
      each label carries the sum of its expenses; the values add up to the
      expense total. */
  lemma CategoryTotalsSpec(s: seq<Txn>)
    ensures var e := CategoryTotals(s);
      && DistinctLabels(e)
      && (forall k :: k in Labels(e) <==> exists t :: t in s && t.kind == Expense && CategoryLabel(t) == k)
      && (forall k :: ValueOf(e, k) == SumBy(Filter(ExpenseLabelled(k), s), Amount))
      && SumValues(e) == SumBy(Filter(IsExpense, s), Amount)
  {
    CategoryTotalsDistinct(s);
    forall k
      ensures k in Labels(CategoryTotals(s)) <==> exists t :: t in s && t.kind == Expense && CategoryLabel(t) == k
      ensures ValueOf(CategoryTotals(s), k) == SumBy(Filter(ExpenseLabelled(k), s), Amount)
    {
      CategoryTotalsLabels(s, k);
      CategoryTotalsValue(s, k);
    }
    CategoryTotalsSum(s);
  }

  /** Each pie segment shows the sum of the expenses carrying its label. */
  lemma CategoryTotalsSegments(s: seq<Txn>)
    ensures var e := CategoryTotals(s);
      forall i :: 0 <= i < |e| ==> e[i].value == SumBy(Filter(ExpenseLabelled(e[i].name), s), Amount)
  {
    var e := CategoryTotals(s);
    CategoryTotalsDistinct(s);
    forall i | 0 <= i < |e|
      ensures e[i].value == SumBy(Filter(ExpenseLabelled(e[i].name), s), Amount)
    {
      ValueOfAt(e, i);
      CategoryTotalsValue(s, e[i].name);
    }
  }

  /** The pie: the placeholder exactly when the list has no expense;
      otherwise one segment per label whose values sum to the expense
      total. */
  lemma CategoryBreakdownSpec(s: seq<Txn>)
    ensures (forall t :: t in s ==> t.kind != Expense) ==> CategoryBreakdown(s) == NoExpenses
    ensures (exists t :: t in s && t.kind == Expense) ==>
      && CategoryBreakdown(s) == CategoryTotals(s)
      && SumValues(CategoryBreakdown(s)) == SumBy(Filter(IsExpense, s), Amount)
  {
    CategoryTotalsSum(s);
    if exists t :: t in s && t.kind == Expense {
      var t :| t in s && t.kind == Expense;
      CategoryTotalsLabels(s, CategoryLabel(t));
      assert CategoryLabel(t) in Labels(CategoryTotals(s));
    } else if CategoryTotals(s) != [] {
      CategoryTotalsLabels(s, CategoryTotals(s)[0].name);
    }
  }

  /** In a dataset with distinct labels, the value under a label is that of
      its single segment. */
  lemma {:induction false} ValueOfAt(e: seq<Slice>, i: nat)
    requires DistinctLabels(e) && i < |e|
    ensures ValueOf(e, e[i].name) == e[i].value
    decreases |e|
  {
    var k := e[i].name;
    if i == 0 {
      ValueOfAbsent(e[1..], k);
    } else {
      ValueOfAt(e[1..], i - 1);
    }
  }

  lemma {:induction false} ValueOfAbsent(e: seq<Slice>, k: string)
    requires forall j :: 0 <= j < |e| ==> e[j].name != k
    ensures ValueOf(e, k) == 0
    decreases |e|
  {
    if e != [] {
      ValueOfAbsent(e[1..], k);
    }
  }

  /** Segments appear in the order their labels are first met: the labels
      computed from any prefix of the list are a prefix of the labels of
      the whole list. */
  lemma {:induction false} CategoryOrderFirstMet(s: seq<Txn>, n: nat)
    requires n <= |s|
    ensures Labels(CategoryTotals(s[..n])) <= Labels(CategoryTotals(s))
    decreases |s| - n
  {
    if n < |s| {
      var s' := s[..|s| - 1];
      assert s[..n] == s'[..n];
      CategoryOrderFirstMet(s', n);
      assert s[..|s|] == s;
    } else {
      assert s[..n] == s;
    }
  }

  // ---------------------------------------------------------------------
  // Bar chart: income and expense per `YYYY-MM` month, months ascending.

  /** One bar group: the month key and its two sums. */
  datatype Bucket = Bucket(month: string, income: int, expense: int)

  /** The record's contribution to its month's income and expense bars:
      income records to the first, every other record to the second. */
  function IncomePart(t: Txn): int {
    if t.kind == Income then t.amount else 0
  }

  function ExpensePart(t: Txn): int {
    if t.kind == Income then 0 else t.amount
  }

  /** The bar chart shows only records whose date `new Date` parses. */
  predicate Dated(t: Txn) {
    WellFormedDate(t.date)
  }

  function Months(bs: seq<Bucket>): seq<string>
    decreases |bs|
  {
    if bs == [] then [] else [bs[0].month] + Months(bs[1..])
  }

  ghost predicate StrictlyAscending(bs: seq<Bucket>) {
    forall i, j :: 0 <= i < j < |bs| ==> LexLess(bs[i].month, bs[j].month)
  }

  function IncomeOf(bs: seq<Bucket>, k: string): int
    decreases |bs|
  {
    if bs == [] then 0 else (if bs[0].month == k then bs[0].income else 0) + IncomeOf(bs[1..], k)
  }

  function ExpenseOf(bs: seq<Bucket>, k: string): int
    decreases |bs|
  {
    if bs == [] then 0 else (if bs[0].month == k then bs[0].expense else 0) + ExpenseOf(bs[1..], k)
  }

  function TotalIncome(bs: seq<Bucket>): int
    decreases |bs|
  {
    if bs == [] then 0 else bs[0].income + TotalIncome(bs[1..])
  }

  function TotalExpense(bs: seq<Bucket>): int
    decreases |bs|
  {
    if bs == [] then 0 else bs[0].expense + TotalExpense(bs[1..])
  }

  /** Adds `t` to the bucket of month `k`, creating it in its ascending
      place when missing. */
  function AddToMonth(bs: seq<Bucket>, k: string, t: Txn): (r: seq<Bucket>)
    ensures forall j :: j in Months(r) <==> j in Months(bs) || j == k
    ensures |r| <= |bs| + 1
    decreases |bs|
  {
    if bs == [] then [Bucket(k, IncomePart(t), ExpensePart(t))]
    else if bs[0].month == k then
      [Bucket(k, bs[0].income + IncomePart(t), bs[0].expense + ExpensePart(t))] + bs[1..]
    else if LexLess(k, bs[0].month) then [Bucket(k, IncomePart(t), ExpensePart(t))] + bs
    else
      var rest := AddToMonth(bs[1..], k, t);
      assert ([bs[0]] + rest)[1..] == rest;
      [bs[0]] + rest
  }

  lemma {:induction false} AddToMonthAscending(bs: seq<Bucket>, k: string, t: Txn)
    requires StrictlyAscending(bs)
    ensures StrictlyAscending(AddToMonth(bs, k, t))
    decreases |bs|
  {
    var r := AddToMonth(bs, k, t);
    if bs != [] && bs[0].month != k && !LexLess(k, bs[0].month) {
      var rest := AddToMonth(bs[1..], k, t);
      AddToMonthAscending(bs[1..], k, t);
      LexLessTotal(k, bs[0].month);
      assert r == [bs[0]] + rest;
      forall j | 0 <= j < |rest| ensures LexLess(bs[0].month, rest[j].month) {
        MonthsAt(rest, j);
        if rest[j].month != k {
          var m := rest[j].month;
          assert m in Months(bs[1..]);
          MonthsIndex(bs[1..], m);
          var i :| 0 <= i < |bs[1..]| && bs[1..][i].month == m;
          assert bs[i + 1].month == m;
        }
      }
      forall i, j | 0 <= i < j < |r| ensures LexLess(r[i].month, r[j].month) {
        if i > 0 {
          assert r[i] == rest[i - 1] && r[j] == rest[j - 1];
        }
      }
    } else if bs != [] && bs[0].month != k {
      var r := AddToMonth(bs, k, t);
      forall i, j | 0 <= i < j < |r| ensures LexLess(r[i].month, r[j].month) {
        if i == 0 && j > 1 {
          LexLessTransitive(k, bs[0].month, bs[j - 1].month);
        }
      }
    } else if bs != [] {
      forall i, j | 0 <= i < j < |r| ensures LexLess(r[i].month, r[j].month) {
        assert r[i].month == bs[i].month && r[j].month == bs[j].month;
      }
    }
  }

  lemma {:induction false} MonthsAt(bs: seq<Bucket>, j: nat)
    requires j < |bs|
    ensures bs[j].month in Months(bs)
    decreases |bs|
  {
    if j > 0 {
      MonthsAt(bs[1..], j - 1);
    }
  }

  lemma {:induction false} MonthsIndex(bs: seq<Bucket>, m: string)
    requires m in Months(bs)
    ensures exists i :: 0 <= i < |bs| && bs[i].month == m
    decreases |bs|
  {
    if bs[0].month != m {
      MonthsIndex(bs[1..], m);
      var i :| 0 <= i < |bs[1..]| && bs[1..][i].month == m;
      assert bs[i + 1].month == m;
    }
  }

  /** Adding `t` to month `k` adds its parts to that month's sums and to the
      overall sums, and to nothing else. */
  lemma {:induction false} AddToMonthSums(bs: seq<Bucket>, k: string, t: Txn, j: string)
    ensures IncomeOf(AddToMonth(bs, k, t), j) == IncomeOf(bs, j) + (if j == k then IncomePart(t) else 0)
    ensures ExpenseOf(AddToMonth(bs, k, t), j) == ExpenseOf(bs, j) + (if j == k then ExpensePart(t) else 0)
    ensures TotalIncome(AddToMonth(bs, k, t)) == TotalIncome(bs) + IncomePart(t)
    ensures TotalExpense(AddToMonth(bs, k, t)) == TotalExpense(bs) + ExpensePart(t)
    decreases |bs|
  {
    var r := AddToMonth(bs, k, t);
    if bs == [] {
    } else if bs[0].month == k {
      assert r[1..] == bs[1..];
    } else if LexLess(k, bs[0].month) {
      assert r[1..] == bs;
    } else {
      AddToMonthSums(bs[1..], k, t, j);
      assert r[1..] == AddToMonth(bs[1..], k, t);
    }
  }

  /** The per-month sums of the dated records, months ascending
      (`Object.keys(byMonth).sort()`; the keys are distinct, so building the
      buckets in ascending order gives the same list). */
  function MonthTotals(s: seq<Txn>): (r: seq<Bucket>)
    ensures |r| <= |s|
    decreases |s|
  {
    if s == [] then []
    else
      var t := s[|s| - 1];
      var bs := MonthTotals(s[..|s| - 1]);
      if Dated(t) then AddToMonth(bs, MonthKey(t.date), t) else bs
  }

  /** The bar dataset: the month sums, or the current month with zero bars
      when no record is dated. `currentMonth` stands for
      `new Date().toISOString().slice(0, 7)`. */
  function MonthBreakdown(s: seq<Txn>, currentMonth: string): (r: seq<Bucket>)
    ensures r != []
  {
    var bs := MonthTotals(s);
    if bs == [] then [Bucket(currentMonth, 0, 0)] else bs
  }

  /** The dated records of month `k`. */
  function InMonthKey(k: string): Txn -> bool {
    (t: Txn) => Dated(t) && MonthKey(t.date) == k
  }

  function IncomeIn(s: seq<Txn>): int {
    SumBy(s, IncomePart)
  }

  function ExpenseIn(s: seq<Txn>): int {
    SumBy(s, ExpensePart)
  }

  /** Month keys stay strictly ascending as records are added. */
  lemma {:induction false} MonthTotalsAscending(s: seq<Txn>)
    ensures StrictlyAscending(MonthTotals(s))
    decreases |s|
  {
    if s != [] {
      var s', t := s[..|s| - 1], s[|s| - 1];
      MonthTotalsAscending(s');
      if Dated(t) {
        AddToMonthAscending(MonthTotals(s'), MonthKey(t.date), t);
      }
    }
  }

  /** A month is listed exactly when some dated record falls in it. */
  lemma {:induction false} MonthTotalsMonths(s: seq<Txn>, k: string)
    ensures k in Months(MonthTotals(s)) <==> exists t :: t in s && Dated(t) && MonthKey(t.date) == k
    decreases |s|
  {
    if s != [] {
      var s', t := s[..|s| - 1], s[|s| - 1];
      assert s == s' + [t];
      MonthTotalsMonths(s', k);
      assert forall u :: u in s <==> u in s' || u == t;
    }
  }

  /** Each month carries the income and expense of its own dated records. */
  lemma {:induction false} MonthTotalsOf(s: seq<Txn>, k: string)
    ensures IncomeOf(MonthTotals(s), k) == IncomeIn(Filter(InMonthKey(k), s))
    ensures ExpenseOf(MonthTotals(s), k) == ExpenseIn(Filter(InMonthKey(k), s))
    decreases |s|
  {
    if s != [] {
      var s', t := s[..|s| - 1], s[|s| - 1];
      MonthTotalsOf(s', k);
      SumFilterLast(InMonthKey(k), s, IncomePart);
      SumFilterLast(InMonthKey(k), s, ExpensePart);
      if Dated(t) {
        AddToMonthSums(MonthTotals(s'), MonthKey(t.date), t, k);
      }
    }
  }

  /** Together the months carry all income and expense of the dated
      records. */
  lemma {:induction false} MonthTotalsAll(s: seq<Txn>)
    ensures TotalIncome(MonthTotals(s)) == IncomeIn(Filter(Dated, s))
    ensures TotalExpense(MonthTotals(s)) == ExpenseIn(Filter(Dated, s))
    decreases |s|
  {
    if s != [] {
      var s', t := s[..|s| - 1], s[|s| - 1];
      MonthTotalsAll(s');
      SumFilterLast(Dated, s, IncomePart);
      SumFilterLast(Dated, s, ExpensePart);
      if Dated(t) {
        AddToMonthSums(MonthTotals(s'), MonthKey(t.date), t, "");
      }
    }
  }

  /** Month keys ascend strictly; a month is listed exactly when some dated
      record falls in it; each month carries the income and expense of its
      records; the bars together carry all income and expense of the dated
      records, and records with unparseable dates contribute nothing. */
  lemma MonthTotalsSpec(s: seq<Txn>)
    ensures var bs := MonthTotals(s);
      && StrictlyAscending(bs)
      && (forall k :: k in Months(bs) <==> exists t :: t in s && Dated(t) && MonthKey(t.date) == k)
      && (forall k :: IncomeOf(bs, k) == IncomeIn(Filter(InMonthKey(k), s)))
      && (forall k :: ExpenseOf(bs, k) == ExpenseIn(Filter(InMonthKey(k), s)))
      && TotalIncome(bs) == IncomeIn(Filter(Dated, s))
      && TotalExpense(bs) == ExpenseIn(Filter(Dated, s))
  {
    MonthTotalsAscending(s);
    forall k
      ensures k in Months(MonthTotals(s)) <==> exists t :: t in s && Dated(t) && MonthKey(t.date) == k
      ensures IncomeOf(MonthTotals(s), k) == IncomeIn(Filter(InMonthKey(k), s))
      ensures ExpenseOf(MonthTotals(s), k) == ExpenseIn(Filter(InMonthKey(k), s))
    {
      MonthTotalsMonths(s, k);
      MonthTotalsOf(s, k);
    }
    MonthTotalsAll(s);
  }

  /** The bar chart always has at least one month; it falls back to the
      current month with zero bars exactly when no record is dated, and
      otherwise shows the month sums. */
  lemma MonthBreakdownSpec(s: seq<Txn>, currentMonth: string)
    ensures (forall t :: t in s ==> !Dated(t)) ==> MonthBreakdown(s, currentMonth) == [Bucket(currentMonth, 0, 0)]
    ensures (exists t :: t in s && Dated(t)) ==> MonthBreakdown(s, currentMonth) == MonthTotals(s) != []
  {
    if exists t :: t in s && Dated(t) {
      var t :| t in s && Dated(t);
      MonthTotalsMonths(s, MonthKey(t.date));
      assert MonthKey(t.date) in Months(MonthTotals(s));
    } else if MonthTotals(s) != [] {
      var bs := MonthTotals(s);
      MonthTotalsMonths(s, bs[0].month);
      assert bs[0].month in Months(bs);
    }
  }
}
