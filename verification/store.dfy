/** The transaction collection and its two mutations: adding a record from
    the entry form and deleting records by id. */
module Store {
  import opened Wrappers
  import opened Text
  import opened Seqs
  import opened Txn

  /** What the entry form submits. `amount` is the result of `parseFloat` on
      the amount field: `None` stands for `NaN`. */
  datatype Form = Form(kind: Kind, amount: Option<int>, category: string, date: string, note: string)

  /** Why a submission is refused (each is an alert in the page). */
  datatype AddError = InvalidAmount | MissingDate | MissingCategory

  /** The category recorded for a submission: the trimmed field, or
      `"Income"` for an income whose field is blank. */
  function RecordedCategory(f: Form): (r: string)
    ensures r == Trim(f.category) || (f.kind == Income && r == "Income")
    ensures f.kind == Expense ==> r == Trim(f.category)
    ensures r != "" <==> f.kind == Income || Trim(f.category) != ""
    ensures Trim(f.category) != "" ==> r == Trim(f.category)
    ensures f.kind == Income && Trim(f.category) == "" ==> r == "Income"
  {
    var c := Trim(f.category);
    if f.kind == Income && c == "" then "Income" else c
  }

  /** Validates and normalises a submission, and appends the new record with
      the caller-supplied fresh id. The checks run in the page's order:
      amount, then date, then category. */
  function Add(store: seq<Txn>, f: Form, freshId: string): (r: Result<seq<Txn>, AddError>)
    ensures (f.amount.None? || f.amount.value <= 0) ==> r == Err(InvalidAmount)
    ensures (f.amount.Some? && f.amount.value > 0 && f.date == "") ==> r == Err(MissingDate)
    ensures (f.amount.Some? && f.amount.value > 0 && f.date != ""
             && f.kind == Expense && Trim(f.category) == "") ==> r == Err(MissingCategory)
    ensures r.Ok? <==> (f.amount.Some? && f.amount.value > 0 && f.date != ""
                        && !(f.kind == Expense && Trim(f.category) == ""))
    ensures r.Ok? ==> && |r.value| == |store| + 1
                      && r.value[..|store|] == store
                      && r.value[|store|] == Txn(freshId, f.kind, f.amount.value,
                                                 RecordedCategory(f), f.date, Trim(f.note))
  {
    if f.amount.None? || f.amount.value <= 0 then Err(InvalidAmount)
    else if f.date == "" then Err(MissingDate)
    else if f.kind == Expense && Trim(f.category) == "" then Err(MissingCategory)
    else
      var t := Txn(freshId, f.kind, f.amount.value, RecordedCategory(f), f.date, Trim(f.note));
      assert (store + [t])[..|store|] == store;
      Ok(store + [t])
  }

  /** Every record `Add` creates satisfies the record invariants, and its
      category and note carry no surrounding white space. */
  lemma AddedRecordWellFormed(store: seq<Txn>, f: Form, freshId: string)
    ensures Add(store, f, freshId).Ok? ==>
      var t := Add(store, f, freshId).value[|store|];
      && WellFormedTxn(t)
      && t.id == freshId
      && !IsSpace(t.category[0]) && !IsSpace(t.category[|t.category| - 1])
      && (t.note == [] || (!IsSpace(t.note[0]) && !IsSpace(t.note[|t.note| - 1])))
  {
  }

  /** Adding keeps a collection of well-formed records well-formed. */
  lemma AddPreservesWellFormed(store: seq<Txn>, f: Form, freshId: string)
    requires forall t :: t in store ==> WellFormedTxn(t)
    ensures Add(store, f, freshId).Ok? ==> forall t :: t in Add(store, f, freshId).value ==> WellFormedTxn(t)
  {
    if Add(store, f, freshId).Ok? {
      var s' := Add(store, f, freshId).value;
      var t := s'[|store|];
      assert WellFormedTxn(t);
      assert s' == store + [t];
      SnocWellFormed(store, t);
    }
  }

  /** Appending a well-formed record to well-formed records. */
  lemma SnocWellFormed(store: seq<Txn>, t: Txn)
    requires forall x :: x in store ==> WellFormedTxn(x)
    requires WellFormedTxn(t)
    ensures forall x :: x in store + [t] ==> WellFormedTxn(x)
  {
    assert forall x :: x in store + [t] ==> x in store || x == t;
  }

  /** With an id not yet in use, adding keeps ids unique. */
  lemma AddPreservesUniqueIds(store: seq<Txn>, f: Form, freshId: string)
    requires UniqueIds(store) && freshId !in Ids(store)
    requires Add(store, f, freshId).Ok?
    ensures UniqueIds(Add(store, f, freshId).value)
    ensures Ids(Add(store, f, freshId).value) == Ids(store) + {freshId}
  {
    var s' := Add(store, f, freshId).value;
    var t := s'[|store|];
    assert s' == store + [t];
    SnocUniqueIds(store, t);
  }

  /** Appending a record whose id is not in use keeps ids unique. */
  lemma SnocUniqueIds(store: seq<Txn>, t: Txn)
    requires UniqueIds(store) && t.id !in Ids(store)
    ensures UniqueIds(store + [t])
    ensures Ids(store + [t]) == Ids(store) + {t.id}
  {
    var s' := store + [t];
    forall i, j | 0 <= i < j < |s'| ensures s'[i].id != s'[j].id {
      assert s'[i] == store[i] && store[i] in store;
      if j < |store| {
        assert s'[j] == store[j];
      }
    }
    assert forall x :: x in s' <==> x in store || x == t;
  }

  /** `deleteTxn` after confirmation: the collection without the records
      carrying `id`. */
  function Delete(store: seq<Txn>, id: string): (r: seq<Txn>)
    ensures forall i :: 0 <= i < |r| ==> r[i].id != id
  {
    var r := Filter((t: Txn) => t.id != id, store);
    FilterSpec((t: Txn) => t.id != id, store);
    assert forall i :: 0 <= i < |r| ==> r[i] in r;
    r
  }

  /** Deleting keeps every record with another id, as often as it occurred
      and in its original order, and nothing else. */
  lemma DeleteKeepsOthers(store: seq<Txn>, id: string)
    ensures forall t :: t in Delete(store, id) <==> t in store && t.id != id
    ensures forall t: Txn :: t.id != id ==> multiset(Delete(store, id))[t] == multiset(store)[t]
    ensures forall t: Txn :: t.id == id ==> multiset(Delete(store, id))[t] == 0
    ensures IsSubseq(Delete(store, id), store)
    ensures Ids(Delete(store, id)) == Ids(store) - {id}
  {
    FilterSpec((t: Txn) => t.id != id, store);
  }

  /** Deleting an id nobody carries changes nothing. */
  lemma DeleteAbsent(store: seq<Txn>, id: string)
    requires id !in Ids(store)
    ensures Delete(store, id) == store
  {
    var keep := (t: Txn) => t.id != id;
    assert forall t :: t in store ==> keep(t);
    FilterKeepsAll(keep, store);
  }

  /** In a collection with unique ids, deleting an id in use removes exactly
      one record. */
  lemma {:induction false} DeleteUnique(store: seq<Txn>, id: string)
    requires UniqueIds(store) && id in Ids(store)
    ensures |Delete(store, id)| == |store| - 1
    decreases |store|
  {
    var s', last := store[..|store| - 1], store[|store| - 1];
    var keep := (t: Txn) => t.id != id;
    assert store == s' + [last];
    if last.id == id {
      assert id !in Ids(s') by {
        forall i | 0 <= i < |s'| ensures s'[i].id != id {
          assert s'[i] == store[i];
        }
      }
      DeleteAbsent(s', id);
    } else {
      assert id in Ids(s');
      DeleteUnique(s', id);
    }
  }

  /** Deleting keeps ids unique. */
  lemma DeletePreservesUniqueIds(store: seq<Txn>, id: string)
    requires UniqueIds(store)
    ensures UniqueIds(Delete(store, id))
  {
    DeleteKeepsOthers(store, id);
    SubseqUnique(Delete(store, id), store);
  }

  lemma {:induction false} SubseqUnique(a: seq<Txn>, b: seq<Txn>)
    requires IsSubseq(a, b) && UniqueIds(b)
    ensures UniqueIds(a)
    decreases |b|
  {
    if a != [] {
      var b' := b[..|b| - 1];
      if a[|a| - 1] == b[|b| - 1] {
        SubseqUnique(a[..|a| - 1], b');
        SubseqIds(a[..|a| - 1], b');
        forall i | 0 <= i < |a| - 1 ensures a[i].id != a[|a| - 1].id {
          assert a[i] in a[..|a| - 1];
          assert a[i].id in Ids(b');
          var j :| 0 <= j < |b'| && b'[j].id == a[i].id;
          assert b[j].id != b[|b| - 1].id;
        }
      } else {
        SubseqUnique(a, b');
      }
    }
  }

  lemma {:induction false} SubseqIds(a: seq<Txn>, b: seq<Txn>)
    requires IsSubseq(a, b)
    ensures Ids(a) <= Ids(b)
    decreases |b|
  {
    if a != [] {
      var b' := b[..|b| - 1];
      assert b == b' + [b[|b| - 1]];
      if a[|a| - 1] == b[|b| - 1] {
        var a' := a[..|a| - 1];
        SubseqIds(a', b');
        assert a == a' + [a[|a| - 1]];
        forall x | x in Ids(a) ensures x in Ids(b) {
          var t :| t in a && t.id == x;
          if t != a[|a| - 1] {
            assert t in a';
            assert x in Ids(a');
            var u :| u in b' && u.id == x;
            assert u in b;
          }
        }
      } else {
        SubseqIds(a, b');
      }
    }
  }

  /** Deleting the record just added, under its fresh id, restores the
      collection. */
  lemma AddThenDelete(store: seq<Txn>, f: Form, freshId: string)
    requires freshId !in Ids(store)
    requires Add(store, f, freshId).Ok?
    ensures Delete(Add(store, f, freshId).value, freshId) == store
  {
    var s' := Add(store, f, freshId).value;
    var keep := (t: Txn) => t.id != freshId;
    assert s' == store + [s'[|store|]];
    FilterConcat(keep, store, [s'[|store|]]);
    DeleteAbsent(store, freshId);
    assert Filter(keep, [s'[|store|]]) == [];
  }
}
