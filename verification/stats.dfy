/** The summary totals under the list (`computeStats`). */
module Stats {
  import opened Seqs
  import opened Txn

  /** Income, expense and net balance of a list of records. */
  datatype Totals = Totals(income: int, expense: int, net: int)

  /** The two running sums of `computeStats`, folded left to right: income
      records add to the first, every other record to the second. */
  function Sums(s: seq<Txn>): (r: (int, int))
    ensures r.0 == SumBy(Filter(IsIncome, s), Amount)
    ensures r.1 == SumBy(Filter(IsExpense, s), Amount)
    decreases |s|
  {
    if s == [] then (0, 0)
    else
      var rest := Sums(s[..|s| - 1]);
      var t := s[|s| - 1];
      SumsLast(s);
      if t.kind == Income then (rest.0 + t.amount, rest.1) else (rest.0, rest.1 + t.amount)
  }

  /** Both sums, peeling off the last record. */
  lemma SumsLast(s: seq<Txn>)
    requires s != []
    ensures SumBy(Filter(IsIncome, s), Amount) == SumBy(Filter(IsIncome, s[..|s| - 1]), Amount)
              + (if s[|s| - 1].kind == Income then s[|s| - 1].amount else 0)
    ensures SumBy(Filter(IsExpense, s), Amount) == SumBy(Filter(IsExpense, s[..|s| - 1]), Amount)
              + (if s[|s| - 1].kind == Expense then s[|s| - 1].amount else 0)
  {
    SumFilterLast(IsIncome, s, Amount);
    SumFilterLast(IsExpense, s, Amount);
  }

  /** The three figures shown: income, expense and their difference; all
      zero for an empty list. */
  function ComputeStats(s: seq<Txn>): (r: Totals)
    ensures r.income == SumBy(Filter(IsIncome, s), Amount)
    ensures r.expense == SumBy(Filter(IsExpense, s), Amount)
    ensures r.net == r.income - r.expense
    ensures s == [] ==> r == Totals(0, 0, 0)
  {
    var (income, expense) := Sums(s);
    Totals(income, expense, income - expense)
  }

  /** The totals depend only on which records are listed, not on their
      order: sorting the list never changes them. */
  lemma StatsPermutation(a: seq<Txn>, b: seq<Txn>)
    requires multiset(a) == multiset(b)
    ensures ComputeStats(a) == ComputeStats(b)
  {
    FilterPermutation(IsIncome, a, b);
    FilterPermutation(IsExpense, a, b);
    SumByPermutation(Filter(IsIncome, a), Filter(IsIncome, b), Amount);
    SumByPermutation(Filter(IsExpense, a), Filter(IsExpense, b), Amount);
  }

  /** Totals of a list split in two are the sums of the halves' totals. */
  lemma StatsConcat(a: seq<Txn>, b: seq<Txn>)
    ensures ComputeStats(a + b).income == ComputeStats(a).income + ComputeStats(b).income
    ensures ComputeStats(a + b).expense == ComputeStats(a).expense + ComputeStats(b).expense
    ensures ComputeStats(a + b).net == ComputeStats(a).net + ComputeStats(b).net
  {
    FilterConcat(IsIncome, a, b);
    FilterConcat(IsExpense, a, b);
    SumByConcat(Filter(IsIncome, a), Filter(IsIncome, b), Amount);
    SumByConcat(Filter(IsExpense, a), Filter(IsExpense, b), Amount);
  }
}
