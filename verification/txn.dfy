/** The transaction record and the calendar dates it carries. */
module Txn {
  import opened Text

  /** The two kinds of transaction the entry form offers. */
  datatype Kind = Income | Expense

  /** The text of a kind as stored in the record's `type` field. */
  function KindName(k: Kind): string {
    match k
    case Income => "income"
    case Expense => "expense"
  }

  /** One recorded transaction. `amount` is an exact integral amount; `date`
      is the `YYYY-MM-DD` text of the entry form's date input. */
  datatype Txn = Txn(id: string, kind: Kind, amount: int, category: string, date: string, note: string)

  predicate IsIncome(t: Txn) {
    t.kind == Income
  }

  predicate IsExpense(t: Txn) {
    t.kind == Expense
  }

  function Amount(t: Txn): int {
    t.amount
  }

  /** The ids in use in a collection. */
  function Ids(s: seq<Txn>): set<string> {
    set t | t in s :: t.id
  }

  /** No two entries of the collection share an id. */
  ghost predicate UniqueIds(s: seq<Txn>) {
    forall i, j :: 0 <= i < j < |s| ==> s[i].id != s[j].id
  }

  /** The field invariants a record created through the entry form keeps:
      a positive amount, a non-empty category and a non-empty date. */
  predicate WellFormedTxn(t: Txn) {
    t.amount > 0 && t.category != "" && t.date != ""
  }

  /** `s.slice(0, 7)`: the first seven characters, or all of a shorter `s`. */
  function Prefix7(s: string): (r: string)
    ensures |r| == if |s| < 7 then |s| else 7
    ensures r <= s
  {
    if |s| < 7 then s else s[..7]
  }

  function IsLeapYear(y: int): bool {
    (y % 4 == 0 && y % 100 != 0) || y % 400 == 0
  }

  function DaysInMonth(y: int, m: int): int {
    if m == 2 then (if IsLeapYear(y) then 29 else 28)
    else if m == 4 || m == 6 || m == 9 || m == 11 then 30
    else 31
  }

  predicate DigitsAt(d: string, lo: nat, hi: nat)
    requires lo <= hi <= |d|
  {
    forall i :: lo <= i < hi ==> IsDigit(d[i])
  }

  /** A `YYYY-MM-DD` text naming an existing calendar day: the only date
      texts the entry form produces, and the ones `new Date(...)` parses to
      midnight UTC of that day. */
  predicate WellFormedDate(d: string) {
    && |d| == 10
    && DigitsAt(d, 0, 4) && d[4] == '-' && DigitsAt(d, 5, 7) && d[7] == '-' && DigitsAt(d, 8, 10)
    && 1 <= DigitsValue(d[5..7]) <= 12
    && 1 <= DigitsValue(d[8..10]) <= DaysInMonth(DigitsValue(d[..4]), DigitsValue(d[5..7]))
  }

  function Year(d: string): int
    requires WellFormedDate(d)
  {
    DigitsValue(d[..4])
  }

  function Month(d: string): int
    requires WellFormedDate(d)
  {
    DigitsValue(d[5..7])
  }

  function Day(d: string): int
    requires WellFormedDate(d)
  {
    DigitsValue(d[8..10])
  }

  /** A number that orders dates as their timestamps `new Date(d)` do:
      `YYYYMMDD` for a well-formed date. Every other text gets -1, below every
      well-formed date. */
  function DateStamp(d: string): (n: int)
    ensures WellFormedDate(d) ==> n == Year(d) * 10000 + Month(d) * 100 + Day(d)
    ensures WellFormedDate(d) <==> n >= 0
  {
    if WellFormedDate(d) then Year(d) * 10000 + Month(d) * 100 + Day(d) else -1
  }

  /** The `YYYY-MM` bucket key of a date: `new Date(d).toISOString().slice(0, 7)`,
      which for a well-formed date is its first seven characters. */
  function MonthKey(d: string): (k: string)
    requires WellFormedDate(d)
    ensures |k| == 7 && k <= d
  {
    d[..7]
  }

  /** Splits a well-formed date into its parts. */
  lemma DateParts(d: string)
    requires WellFormedDate(d)
    ensures d == d[..4] + ("-" + (d[5..7] + ("-" + d[8..10])))
  {
  }

  /** Text order of `Y-M-D` texts with parts of fixed widths is decided by
      the years, then the months, then the days. */
  lemma DateTextOrder(ya: string, ma: string, da: string, yb: string, mb: string, db: string)
    requires |ya| == |yb| && |ma| == |mb|
    ensures var a, b := ya + ("-" + (ma + ("-" + da))), yb + ("-" + (mb + ("-" + db)));
      LexLess(a, b) <==> LexLess(ya, yb) || (ya == yb && (LexLess(ma, mb) || (ma == mb && LexLess(da, db))))
  {
    LexLessIrreflexive("-");
    LexLessConcat(ya, "-" + (ma + ("-" + da)), yb, "-" + (mb + ("-" + db)));
    LexLessConcat("-", ma + ("-" + da), "-", mb + ("-" + db));
    LexLessConcat(ma, "-" + da, mb, "-" + db);
    LexLessConcat("-", da, "-", db);
  }

  /** The stamp order of two well-formed dates is decided by the years, then
      the months, then the days. */
  lemma DateStampOrder(a: string, b: string)
    requires WellFormedDate(a) && WellFormedDate(b)
    ensures DateStamp(a) < DateStamp(b) <==>
      Year(a) < Year(b) || (Year(a) == Year(b) && (Month(a) < Month(b) || (Month(a) == Month(b) && Day(a) < Day(b))))
    ensures DateStamp(a) == DateStamp(b) <==> Year(a) == Year(b) && Month(a) == Month(b) && Day(a) == Day(b)
  {
    assert 1 <= Month(a) <= 12 && 1 <= Month(b) <= 12;
    assert 1 <= Day(a) <= 31 && 1 <= Day(b) <= 31;
  }

  /** The year, month and day fields compare as their numbers do. */
  lemma DateFieldsOrder(a: string, b: string)
    requires WellFormedDate(a) && WellFormedDate(b)
    ensures LexLess(a[..4], b[..4]) <==> Year(a) < Year(b)
    ensures a[..4] == b[..4] <==> Year(a) == Year(b)
    ensures LexLess(a[5..7], b[5..7]) <==> Month(a) < Month(b)
    ensures a[5..7] == b[5..7] <==> Month(a) == Month(b)
    ensures LexLess(a[8..10], b[8..10]) <==> Day(a) < Day(b)
    ensures a[8..10] == b[8..10] <==> Day(a) == Day(b)
  {
    assert forall i :: 0 <= i < 4 ==> IsDigit(a[..4][i]) && IsDigit(b[..4][i]);
    assert forall i :: 0 <= i < 2 ==> IsDigit(a[5..7][i]) && IsDigit(b[5..7][i]);
    assert forall i :: 0 <= i < 2 ==> IsDigit(a[8..10][i]) && IsDigit(b[8..10][i]);
    DigitsLexOrder(a[..4], b[..4]);
    DigitsLexOrder(a[5..7], b[5..7]);
    DigitsLexOrder(a[8..10], b[8..10]);
  }

  /** For well-formed dates, chronological order (the order of `DateStamp`)
      is code-point order of the `YYYY-MM-DD` texts, and equal stamps mean
      equal dates. */
  lemma DateOrderIsTextOrder(a: string, b: string)
    requires WellFormedDate(a) && WellFormedDate(b)
    ensures DateStamp(a) < DateStamp(b) <==> LexLess(a, b)
    ensures DateStamp(a) == DateStamp(b) <==> a == b
  {
    DateParts(a);
    DateParts(b);
    DateTextOrder(a[..4], a[5..7], a[8..10], b[..4], b[5..7], b[8..10]);
    DateStampOrder(a, b);
    DateFieldsOrder(a, b);
  }

  /** A month key splits into its year and month parts. */
  lemma MonthKeyParts(d: string)
    requires WellFormedDate(d)
    ensures MonthKey(d) == d[..4] + ("-" + d[5..7])
  {
  }

  /** Two well-formed dates share a month key exactly when they share year
      and month, and a later date never has a smaller key: ascending keys are
      chronological months. */
  lemma MonthKeyOrder(a: string, b: string)
    requires WellFormedDate(a) && WellFormedDate(b)
    ensures MonthKey(a) == MonthKey(b) <==> Year(a) == Year(b) && Month(a) == Month(b)
    ensures DateStamp(a) <= DateStamp(b) ==> !LexLess(MonthKey(b), MonthKey(a))
  {
    MonthKeyParts(a);
    MonthKeyParts(b);
    DateFieldsOrder(a, b);
    DateFieldsOrder(b, a);
    DateStampOrder(b, a);
    LexLessIrreflexive("-");
    LexLessConcat(b[..4], "-" + b[5..7], a[..4], "-" + a[5..7]);
    LexLessConcat("-", b[5..7], "-", a[5..7]);
    if MonthKey(a) == MonthKey(b) {
      assert a[..4] == MonthKey(a)[..4] == MonthKey(b)[..4] == b[..4];
      assert a[5..7] == MonthKey(a)[5..7] == MonthKey(b)[5..7] == b[5..7];
    }
  }
}
