/** The choices offered by the month and category filter controls
    (`refreshFilterOptions`). */
module FilterOptions {
  import opened Text
  import opened Seqs
  import opened Sorting
  import opened Txn

  /** The quick-pick categories every category menu offers. */
  const DefaultCategories: seq<string> :=
    ["Food", "Groceries", "Transport", "Rent", "Entertainment", "Salary", "Loan", "Other"]

  /** The seven-character date prefix of every record, in store order. */
  function DatePrefixes(store: seq<Txn>): (r: seq<string>)
    ensures |r| == |store|
    ensures forall i :: 0 <= i < |store| ==> r[i] == Prefix7(store[i].date)
  {
    seq(|store|, i requires 0 <= i < |store| => Prefix7(store[i].date))
  }

  /** The category of every record, in store order. */
  function Categories(store: seq<Txn>): (r: seq<string>)
    ensures |r| == |store|
    ensures forall i :: 0 <= i < |store| ==> r[i] == store[i].category
  {
    seq(|store|, i requires 0 <= i < |store| => store[i].category)
  }

  function NonEmpty(s: string): bool {
    s != ""
  }

  lemma DatePrefixesMember(store: seq<Txn>, k: string)
    ensures k in DatePrefixes(store) <==> exists t :: t in store && Prefix7(t.date) == k
  {
    var ps := DatePrefixes(store);
    if k in ps {
      var i :| 0 <= i < |ps| && ps[i] == k;
      assert store[i] in store;
    }
    if exists t :: t in store && Prefix7(t.date) == k {
      var t :| t in store && Prefix7(t.date) == k;
      var i :| 0 <= i < |store| && store[i] == t;
      assert ps[i] == k;
    }
  }

  lemma CategoriesMember(store: seq<Txn>, c: string)
    ensures c in Categories(store) <==> exists t :: t in store && t.category == c
  {
    var cs := Categories(store);
    if c in cs {
      var i :| 0 <= i < |cs| && cs[i] == c;
      assert store[i] in store;
    }
    if exists t :: t in store && t.category == c {
      var t :| t in store && t.category == c;
      var i :| 0 <= i < |store| && store[i] == t;
      assert cs[i] == c;
    }
  }

  /** The non-empty date prefixes are exactly those of some record. */
  lemma MonthKeysMembers(store: seq<Txn>)
    ensures forall k :: k in Filter(NonEmpty, DatePrefixes(store))
                    <==> k != "" && exists t :: t in store && Prefix7(t.date) == k
  {
    FilterSpec(NonEmpty, DatePrefixes(store));
    forall k
      ensures k in DatePrefixes(store) <==> exists t :: t in store && Prefix7(t.date) == k
    {
      DatePrefixesMember(store, k);
    }
  }

  /** Sorting distinct strings by `LexGreater` leaves them in strictly
      descending code-point order. */
  lemma SortedDescending(keys: seq<string>)
    ensures forall i, j :: 0 <= i < j < |SortedDistinct(keys, LexGreater)| ==>
      LexLess(SortedDistinct(keys, LexGreater)[j], SortedDistinct(keys, LexGreater)[i])
  {
    LexGreaterStrictTotalOrder();
    SortedDistinctSorted(keys, LexGreater);
    var r := SortedDistinct(keys, LexGreater);
    forall i, j | 0 <= i < j < |r| ensures LexLess(r[j], r[i]) {
      assert LexGreater(r[i], r[j]);
    }
  }

  /** The month menu: every distinct non-empty `date.slice(0, 7)` of the
      collection, newest first. */
  function MonthOptions(store: seq<Txn>): (r: seq<string>)
    ensures forall k :: k in r <==> k != "" && exists t :: t in store && Prefix7(t.date) == k
    ensures forall i, j :: 0 <= i < j < |r| ==> LexLess(r[j], r[i])
  {
    var keys := Filter(NonEmpty, DatePrefixes(store));
    MonthKeysMembers(store);
    SortedDescending(keys);
    SortedDistinct(keys, LexGreater)
  }

  /** The category menu: the default categories together with every
      non-empty category in use, each once, in ascending code-point order. */
  function CategoryOptions(store: seq<Txn>): (r: seq<string>)
    ensures forall c :: c in r <==> c in DefaultCategories || (c != "" && exists t :: t in store && t.category == c)
    ensures forall i, j :: 0 <= i < j < |r| ==> LexLess(r[i], r[j])
  {
    var used := Filter(NonEmpty, Categories(store));
    FilterSpec(NonEmpty, Categories(store));
    LexLessStrictTotalOrder();
    SortedDistinctSorted(DefaultCategories + used, LexLess);
    var r := SortedDistinct(DefaultCategories + used, LexLess);
    forall c
      ensures c in Categories(store) <==> exists t :: t in store && t.category == c
    {
      CategoriesMember(store, c);
    }
    r
  }
}
