/** The list view: the month, category and text filters followed by the
    chosen sort (`renderAll`). */
module Query {
  import opened Text
  import opened Seqs
  import opened Sorting
  import opened Txn

  /** The three filter controls, as the values of their form elements. */
  datatype Filters = Filters(month: string, category: string, search: string)

  /** The filter controls and the sort control. */
  datatype View = View(filters: Filters, sort: string)

  /** The controls after "reset filters". */
  const ResetView: View := View(Filters("all", "all", ""), "latest")

  /** A selector restricts the list unless it is empty or `"all"`. */
  predicate Active(selector: string) {
    selector != "" && selector != "all"
  }

  /** The search text as matched: trimmed and lower-cased. */
  function SearchKey(f: Filters): string {
    Lower(Trim(f.search))
  }

  /** `q` occurs in the lower-cased category, note or type of `t`, or in the
      text of its amount. */
  predicate MatchesText(t: Txn, q: string) {
    || Contains(Lower(t.category), q)
    || Contains(Lower(t.note), q)
    || Contains(Lower(KindName(t.kind)), q)
    || Contains(Lower(IntText(t.amount)), q)
  }

  function InMonth(m: string): Txn -> bool {
    (t: Txn) => Prefix7(t.date) == m
  }

  function InCategory(c: string): Txn -> bool {
    (t: Txn) => t.category == c
  }

  function MatchesQuery(q: string): Txn -> bool {
    (t: Txn) => MatchesText(t, q)
  }

  /** One filter stage: `p` applied when `on`, the list unchanged otherwise. */
  function Stage(s: seq<Txn>, on: bool, p: Txn -> bool): seq<Txn> {
    if on then Filter(p, s) else s
  }

  /** A stage only drops records. */
  lemma StageShrinks(s: seq<Txn>, on: bool, p: Txn -> bool)
    ensures multiset(Stage(s, on, p)) <= multiset(s)
  {
    if on {
      FilterSpec(p, s);
    }
  }

  /** The three filters, applied in the page's order: they only drop
      records, never add or duplicate one. */
  function Narrow(store: seq<Txn>, f: Filters): (r: seq<Txn>)
    ensures multiset(r) <= multiset(store)
  {
    var byMonth := Stage(store, Active(f.month), InMonth(f.month));
    var byCategory := Stage(byMonth, Active(f.category), InCategory(f.category));
    StageShrinks(store, Active(f.month), InMonth(f.month));
    StageShrinks(byMonth, Active(f.category), InCategory(f.category));
    StageShrinks(byCategory, SearchKey(f) != "", MatchesQuery(SearchKey(f)));
    Stage(byCategory, SearchKey(f) != "", MatchesQuery(SearchKey(f)))
  }

  /** The record passes every active filter of `f`. */
  predicate Selected(f: Filters, t: Txn) {
    && (Active(f.month) ==> Prefix7(t.date) == f.month)
    && (Active(f.category) ==> t.category == f.category)
    && (SearchKey(f) != "" ==> MatchesText(t, SearchKey(f)))
  }

  function SelectedBy(f: Filters): Txn -> bool {
    (t: Txn) => Selected(f, t)
  }

  predicate IsSortMode(mode: string) {
    mode == "latest" || mode == "amountHigh" || mode == "amountLow"
  }

  /** The ascending key each sort mode orders by: newest date first, largest
      amount first, smallest amount first. */
  function SortKey(mode: string): Txn -> int {
    if mode == "latest" then NewestFirst
    else if mode == "amountHigh" then LargestFirst
    else Amount
  }

  /** `(a, b) => new Date(b.date) - new Date(a.date)` as an ascending key. */
  function NewestFirst(t: Txn): int {
    -DateStamp(t.date)
  }

  /** `(a, b) => b.amount - a.amount` as an ascending key. */
  function LargestFirst(t: Txn): int {
    -t.amount
  }

  /** The page's stable sort for a mode; any other value keeps the order.
      Either way the records are only rearranged. */
  function SortView(s: seq<Txn>, mode: string): (r: seq<Txn>)
    ensures multiset(r) == multiset(s)
  {
    if IsSortMode(mode) then InsertionSort(s, SortKey(mode)) else s
  }

  /** The visible list: a selection of the stored records, none repeated
      more often than stored. */
  function Visible(store: seq<Txn>, v: View): (r: seq<Txn>)
    ensures multiset(r) <= multiset(store)
  {
    SortView(Narrow(store, v.filters), v.sort)
  }

  /** A stage passes a record that may follow the list through exactly
      when the stage is off or the record satisfies its test. */
  lemma StageMaybeSnoc(s: seq<Txn>, b: bool, x: Txn, on: bool, p: Txn -> bool)
    ensures Stage(s + (if b then [x] else []), on, p)
         == Stage(s, on, p) + (if b && (!on || p(x)) then [x] else [])
  {
    if b {
      if on {
        FilterSnoc(p, s, x);
      }
    } else {
      assert s + [] == s;
    }
  }

  lemma NarrowSnoc(store: seq<Txn>, x: Txn, f: Filters)
    ensures Narrow(store + [x], f) == Narrow(store, f) + (if Selected(f, x) then [x] else [])
  {
    var s1 := Stage(store, Active(f.month), InMonth(f.month));
    var b1 := !Active(f.month) || InMonth(f.month)(x);
    StageMaybeSnoc(store, true, x, Active(f.month), InMonth(f.month));
    assert store + [x] == store + (if true then [x] else []);
    var s2 := Stage(s1, Active(f.category), InCategory(f.category));
    var b2 := b1 && (!Active(f.category) || InCategory(f.category)(x));
    StageMaybeSnoc(s1, b1, x, Active(f.category), InCategory(f.category));
    var q := SearchKey(f);
    StageMaybeSnoc(s2, b2, x, q != "", MatchesQuery(q));
    assert Selected(f, x) == (b2 && (!(q != "") || MatchesQuery(q)(x)));
  }

  /** Before sorting, the list is exactly the selected records in store
      order. */
  lemma {:induction false} NarrowIsFilter(store: seq<Txn>, f: Filters)
    ensures Narrow(store, f) == Filter(SelectedBy(f), store)
    decreases |store|
  {
    if store == [] {
    } else {
      var s', x := store[..|store| - 1], store[|store| - 1];
      assert store == s' + [x];
      NarrowIsFilter(s', f);
      NarrowSnoc(s', x, f);
      FilterSnoc(SelectedBy(f), s', x);
    }
  }

  /** The list holds exactly the records passing every active filter, each
      as often as in the store. */
  lemma QuerySelects(store: seq<Txn>, v: View)
    ensures forall t :: t in Visible(store, v) <==> t in store && Selected(v.filters, t)
    ensures multiset(Visible(store, v)) == multiset(Filter(SelectedBy(v.filters), store))
  {
    var n := Narrow(store, v.filters);
    var r := Visible(store, v);
    NarrowIsFilter(store, v.filters);
    FilterSpec(SelectedBy(v.filters), store);
    assert multiset(r) == multiset(n);
    forall t ensures t in r <==> t in n {
      assert t in r <==> t in multiset(r);
      assert t in n <==> t in multiset(n);
    }
  }

  /** Every listed record is stored and passes every active filter. */
  lemma QueryOnlySelected(store: seq<Txn>, v: View)
    ensures forall t :: t in Visible(store, v) ==> t in store && Selected(v.filters, t)
  {
    QuerySelects(store, v);
  }

  /** Every stored record passing every active filter is listed. */
  lemma QueryAllSelected(store: seq<Txn>, v: View)
    ensures forall t :: t in store && Selected(v.filters, t) ==> t in Visible(store, v)
  {
    QuerySelects(store, v);
  }

  /** `amountHigh` lists amounts in non-increasing order. */
  lemma QueryAmountHigh(store: seq<Txn>, f: Filters)
    ensures var r := Visible(store, View(f, "amountHigh"));
      forall i, j :: 0 <= i < j < |r| ==> r[i].amount >= r[j].amount
  {
    var r := Visible(store, View(f, "amountHigh"));
    var n := Narrow(store, f);
    assert r == InsertionSort(n, LargestFirst);
    InsertionSortSorted(n, LargestFirst);
    forall i, j | 0 <= i < j < |r| ensures r[i].amount >= r[j].amount {
      assert LargestFirst(r[i]) <= LargestFirst(r[j]);
    }
  }

  /** `amountLow` lists amounts in non-decreasing order. */
  lemma QueryAmountLow(store: seq<Txn>, f: Filters)
    ensures var r := Visible(store, View(f, "amountLow"));
      forall i, j :: 0 <= i < j < |r| ==> r[i].amount <= r[j].amount
  {
    var r := Visible(store, View(f, "amountLow"));
    var n := Narrow(store, f);
    assert r == InsertionSort(n, Amount);
    InsertionSortSorted(n, Amount);
    forall i, j | 0 <= i < j < |r| ensures r[i].amount <= r[j].amount {
      assert Amount(r[i]) <= Amount(r[j]);
    }
  }

  /** `latest` lists dates newest first. */
  lemma QueryLatest(store: seq<Txn>, f: Filters)
    ensures var r := Visible(store, View(f, "latest"));
      forall i, j :: 0 <= i < j < |r| ==> DateStamp(r[i].date) >= DateStamp(r[j].date)
  {
    var r := Visible(store, View(f, "latest"));
    var n := Narrow(store, f);
    assert r == InsertionSort(n, NewestFirst);
    InsertionSortSorted(n, NewestFirst);
    forall i, j | 0 <= i < j < |r| ensures DateStamp(r[i].date) >= DateStamp(r[j].date) {
      assert NewestFirst(r[i]) <= NewestFirst(r[j]);
    }
  }

  /** Any other sort value leaves the filtered records in store order. */
  lemma QueryUnsorted(store: seq<Txn>, f: Filters, mode: string)
    requires !IsSortMode(mode)
    ensures Visible(store, View(f, mode)) == Filter(SelectedBy(f), store)
  {
    NarrowIsFilter(store, f);
  }

  /** Any other sort value keeps the listed records in their store order. */
  lemma QueryUnsortedKeepsOrder(store: seq<Txn>, f: Filters, mode: string)
    requires !IsSortMode(mode)
    ensures IsSubseq(Visible(store, View(f, mode)), store)
  {
    QueryUnsorted(store, f, mode);
    FilterSpec(SelectedBy(f), store);
  }

  /** Under `latest`, records with well-formed dates come out in descending
      `YYYY-MM-DD` text order, and records whose date cannot be parsed come
      after all of them. */
  lemma {:induction false} LatestIsDescendingDates(store: seq<Txn>, f: Filters)
    ensures var r := Visible(store, View(f, "latest"));
      forall i, j :: 0 <= i < j < |r| ==>
        && (WellFormedDate(r[j].date) ==> WellFormedDate(r[i].date))
        && (WellFormedDate(r[i].date) && WellFormedDate(r[j].date) ==> !LexLess(r[i].date, r[j].date))
  {
    var r := Visible(store, View(f, "latest"));
    QueryLatest(store, f);
    forall i, j | 0 <= i < j < |r|
      ensures WellFormedDate(r[j].date) ==> WellFormedDate(r[i].date)
      ensures WellFormedDate(r[i].date) && WellFormedDate(r[j].date) ==> !LexLess(r[i].date, r[j].date)
    {
      assert DateStamp(r[i].date) >= DateStamp(r[j].date);
      if WellFormedDate(r[i].date) && WellFormedDate(r[j].date) {
        DateOrderIsTextOrder(r[i].date, r[j].date);
      }
    }
  }

  /** Sorting is stable: records the sort ties (same date for `latest`, same
      amount otherwise) keep their store order. */
  lemma QueryStable(store: seq<Txn>, v: View, c: int)
    requires IsSortMode(v.sort)
    ensures Filter(KeyIs(SortKey(v.sort), c), Visible(store, v))
         == Filter(KeyIs(SortKey(v.sort), c), Filter(SelectedBy(v.filters), store))
  {
    NarrowIsFilter(store, v.filters);
    InsertionSortStable(Narrow(store, v.filters), SortKey(v.sort), c);
  }

  lemma ReverseLargestFirst(a: seq<Txn>)
    requires SortedByKey(a, Amount)
    ensures SortedByKey(Reverse(a), LargestFirst)
  {
    var ra := Reverse(a);
    forall i, j | 0 <= i < j < |ra| ensures LargestFirst(ra[i]) <= LargestFirst(ra[j]) {
      var i', j' := |a| - 1 - j, |a| - 1 - i;
      assert ra[i] == a[j'] && ra[j] == a[i'];
      assert Amount(a[i']) <= Amount(a[j']);
    }
  }

  /** With no amount shared by two different records, sorting by largest
      amount gives the reverse of sorting by smallest amount. */
  lemma AmountSortsReverseOf(n: seq<Txn>)
    requires forall x, y :: x in n && y in n && x.amount == y.amount ==> x == y
    ensures InsertionSort(n, LargestFirst) == Reverse(InsertionSort(n, Amount))
  {
    var a := InsertionSort(n, Amount);
    var b := InsertionSort(n, LargestFirst);
    var ra := Reverse(a);
    assert SortedByKey(ra, LargestFirst) by {
      InsertionSortSorted(n, Amount);
      ReverseLargestFirst(a);
    }
    assert SortedByKey(b, LargestFirst) by {
      InsertionSortSorted(n, LargestFirst);
    }
    assert multiset(ra) == multiset(n) == multiset(b);
    assert InjectiveOn(multiset(ra), LargestFirst) by {
      forall x, y | x in multiset(ra) && y in multiset(ra) && LargestFirst(x) == LargestFirst(y)
        ensures x == y
      {
        assert x in n && y in n;
      }
    }
    SortedByKeyUnique(ra, b, LargestFirst);
  }

  /** Every record the filters pass is a stored record they select. */
  lemma NarrowSelected(store: seq<Txn>, f: Filters)
    ensures forall x :: x in Narrow(store, f) ==> x in store && Selected(f, x)
  {
    NarrowIsFilter(store, f);
    FilterSpec(SelectedBy(f), store);
  }

  /** When no two different selected records have the same amount,
      `amountHigh` lists exactly the reverse of `amountLow`. */
  lemma AmountSortsReverse(store: seq<Txn>, f: Filters)
    requires forall x, y :: (x in store && y in store && Selected(f, x) && Selected(f, y)
                             && x.amount == y.amount) ==> x == y
    ensures Visible(store, View(f, "amountHigh")) == Reverse(Visible(store, View(f, "amountLow")))
  {
    AmountQueries(store, f);
    NarrowSelected(store, f);
    AmountSortsReverseOf(Narrow(store, f));
  }

  /** The two amount sorts of one filtered list. */
  lemma AmountQueries(store: seq<Txn>, f: Filters)
    ensures Visible(store, View(f, "amountHigh")) == InsertionSort(Narrow(store, f), LargestFirst)
    ensures Visible(store, View(f, "amountLow")) == InsertionSort(Narrow(store, f), Amount)
  {
  }

  /** After "reset filters" the list is the whole collection, newest first. */
  lemma ResetShowsAll(store: seq<Txn>)
    ensures multiset(Visible(store, ResetView)) == multiset(store)
    ensures var r := Visible(store, ResetView);
      forall i, j :: 0 <= i < j < |r| ==> DateStamp(r[i].date) >= DateStamp(r[j].date)
  {
    QueryLatest(store, ResetView.filters);
    assert View(ResetView.filters, "latest") == ResetView;
    NarrowIsFilter(store, ResetView.filters);
    assert SearchKey(ResetView.filters) == "";
    FilterKeepsAll(SelectedBy(ResetView.filters), store);
  }
}
