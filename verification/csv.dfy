/** The CSV export of the whole collection (the export button's handler). */
module Csv {
  import opened Wrappers
  import opened Text
  import opened Txn

  const Header: string := "Type,Amount,Category,Date,Note"

  /** Export is refused when there is nothing to export. */
  datatype ExportError = NoTransactions

  /** `s.replace(/"/g, '""')`: every double quote doubled. */
  function EscapeQuotes(s: string): (r: string)
    ensures |r| >= |s|
    ensures '\n' !in s ==> '\n' !in r
    decreases |s|
  {
    if s == [] then []
    else if s[0] == '"' then "\"\"" + EscapeQuotes(s[1..])
    else [s[0]] + EscapeQuotes(s[1..])
  }

  /** `"${s}"`: `s` between double quotes, as it is. */
  function Quote(s: string): string {
    "\"" + s + "\""
  }

  /** One CSV line: type, amount, quoted category (not escaped), date, and
      quoted note with its quotes doubled. It holds no line break unless the
      record's text fields do. */
  function Row(t: Txn): (r: string)
    ensures SingleLine(t) ==> '\n' !in r
  {
    IntTextNoBreak(t.amount);
    KindName(t.kind) + "," + IntText(t.amount) + "," + Quote(t.category) + ","
      + t.date + "," + Quote(EscapeQuotes(t.note))
  }

  function Rows(store: seq<Txn>): (r: seq<string>)
    ensures |r| == |store|
    ensures forall i :: 0 <= i < |store| ==> r[i] == Row(store[i])
  {
    seq(|store|, i requires 0 <= i < |store| => Row(store[i]))
  }

  /** `lines.join('\n')`: the text starts with the first line, followed by
      a line break when more lines follow. */
  function JoinLines(lines: seq<string>): (r: string)
    ensures lines != [] ==> lines[0] <= r
    ensures |lines| > 1 ==> lines[0] + "\n" <= r
    decreases |lines|
  {
    if lines == [] then ""
    else if |lines| == 1 then lines[0]
    else lines[0] + "\n" + JoinLines(lines[1..])
  }

  /** The CSV text: the header line, then one line per record in store order,
      joined by newlines with none at the end; refused for an empty
      collection. */
  function ExportCsv(store: seq<Txn>): (r: Result<string, ExportError>)
    ensures r.Err? <==> store == []
  {
    if store == [] then Err(NoTransactions)
    else Ok(JoinLines([Header] + Rows(store)))
  }

  // ---------------------------------------------------------------------
  // Reading the export back.

  /** `s.split('\n')`. */
  function Lines(s: string): (r: seq<string>)
    ensures |r| >= 1
    decreases |s|
  {
    if s == [] then [""]
    else if s[0] == '\n' then [""] + Lines(s[1..])
    else
      var ls := Lines(s[1..]);
      [[s[0]] + ls[0]] + ls[1..]
  }

  lemma {:induction false} LinesSingle(a: string)
    requires '\n' !in a
    ensures Lines(a) == [a]
    decreases |a|
  {
    if a != [] {
      assert '\n' !in a[1..] by {
        assert forall c :: c in a[1..] ==> c in a;
      }
      LinesSingle(a[1..]);
      assert [a[0]] + a[1..] == a;
    }
  }

  lemma {:induction false} LinesCons(a: string, b: string)
    requires '\n' !in a
    ensures Lines(a + "\n" + b) == [a] + Lines(b)
    decreases |a|
  {
    if a == [] {
      assert a + "\n" + b == "\n" + b;
      assert ("\n" + b)[1..] == b;
    } else {
      assert '\n' !in a[1..] by {
        assert forall c :: c in a[1..] ==> c in a;
      }
      LinesCons(a[1..], b);
      assert (a + "\n" + b)[1..] == a[1..] + "\n" + b;
      assert [a[0]] + a[1..] == a;
    }
  }

  /** Splitting joined lines at newlines gives the lines back, as long as
      no line holds a newline of its own. */
  lemma {:induction false} JoinLinesRoundTrip(lines: seq<string>)
    requires lines != []
    requires forall i :: 0 <= i < |lines| ==> '\n' !in lines[i]
    ensures Lines(JoinLines(lines)) == lines
    decreases |lines|
  {
    if |lines| == 1 {
      LinesSingle(lines[0]);
    } else {
      JoinLinesRoundTrip(lines[1..]);
      LinesCons(lines[0], JoinLines(lines[1..]));
      assert [lines[0]] + lines[1..] == lines;
    }
  }

  /** The record's free-text fields hold no line break. */
  predicate SingleLine(t: Txn) {
    '\n' !in t.category && '\n' !in t.date && '\n' !in t.note
  }

  lemma RowsSingleLine(store: seq<Txn>)
    requires forall t :: t in store ==> SingleLine(t)
    ensures forall i :: 0 <= i < |Rows(store)| ==> '\n' !in Rows(store)[i]
  {
    forall i | 0 <= i < |store| ensures '\n' !in Rows(store)[i] {
      assert store[i] in store;
    }
  }

  /** No line of the export holds a line break of its own. */
  lemma ExportLinesSingle(store: seq<Txn>)
    requires forall t :: t in store ==> SingleLine(t)
    ensures var lines := [Header] + Rows(store);
      forall i :: 0 <= i < |lines| ==> '\n' !in lines[i]
  {
    var lines := [Header] + Rows(store);
    RowsSingleLine(store);
    forall i | 0 <= i < |lines| ensures '\n' !in lines[i] {
      if i > 0 {
        assert lines[i] == Rows(store)[i - 1];
      }
    }
  }

  /** Read line by line, a non-empty export is the header followed by one row
      per record, in store order. */
  lemma ExportLines(store: seq<Txn>)
    requires store != []
    requires forall t :: t in store ==> SingleLine(t)
    ensures Lines(ExportCsv(store).value) == [Header] + Rows(store)
  {
    ExportLinesSingle(store);
    JoinLinesRoundTrip([Header] + Rows(store));
  }

  /** Reads a quoted field's contents up to its closing quote (RFC 4180,
      section 2, rule 7: a doubled quote inside stands for one quote);
      returns the contents and what follows the closing quote. */
  function ReadQuoted(s: string): Option<(string, string)>
    decreases |s|
  {
    if s == [] then None
    else if s[0] == '"' then
      if |s| >= 2 && s[1] == '"' then
        match ReadQuoted(s[2..])
        case None => None
        case Some((v, rest)) => Some(("\"" + v, rest))
      else Some(("", s[1..]))
    else
      match ReadQuoted(s[1..])
      case None => None
      case Some((v, rest)) => Some(([s[0]] + v, rest))
  }

  /** A quoted field at the start of `s`: its contents and the text after it,
      which must end the line or start the next field. */
  function ParseQuotedField(s: string): Option<(string, string)> {
    if s == [] || s[0] != '"' then None
    else
      match ReadQuoted(s[1..])
      case None => None
      case Some((v, rest)) => if rest == [] || rest[0] == ',' then Some((v, rest)) else None
  }

  lemma {:induction false} ReadQuotedEscaped(v: string, rest: string)
    requires rest == [] || rest[0] != '"'
    ensures ReadQuoted(EscapeQuotes(v) + "\"" + rest) == Some((v, rest))
    decreases |v|
  {
    var s := EscapeQuotes(v) + "\"" + rest;
    if v == [] {
      assert s == "\"" + rest;
      assert s[1..] == rest;
    } else if v[0] == '"' {
      ReadQuotedEscaped(v[1..], rest);
      assert s == "\"\"" + (EscapeQuotes(v[1..]) + "\"" + rest);
      assert s[2..] == EscapeQuotes(v[1..]) + "\"" + rest;
      assert "\"" + v[1..] == v;
    } else {
      ReadQuotedEscaped(v[1..], rest);
      assert s == [v[0]] + (EscapeQuotes(v[1..]) + "\"" + rest);
      assert s[1..] == EscapeQuotes(v[1..]) + "\"" + rest;
      assert [v[0]] + v[1..] == v;
    }
  }

  lemma ParseQuotedFieldOf(s: string, v: string, rest: string)
    requires s != [] && s[0] == '"' && ReadQuoted(s[1..]) == Some((v, rest))
    requires rest == [] || rest[0] == ','
    ensures ParseQuotedField(s) == Some((v, rest))
  {
  }

  /** The note field reads back as the note, whatever it contains. */
  lemma NoteFieldRoundTrip(note: string, rest: string)
    requires rest == [] || rest[0] == ','
    ensures ParseQuotedField(Quote(EscapeQuotes(note)) + rest) == Some((note, rest))
  {
    var body := EscapeQuotes(note) + "\"" + rest;
    var s := Quote(EscapeQuotes(note)) + rest;
    assert s == "\"" + body;
    assert s[1..] == body;
    ReadQuotedEscaped(note, rest);
    ParseQuotedFieldOf(s, note, rest);
  }

  /** In an exported row, the last field is the quoted, quote-doubled note,
      and it reads back as the note to the end of the line. */
  lemma RowNoteField(t: Txn)
    ensures var prefix := KindName(t.kind) + "," + IntText(t.amount) + "," + Quote(t.category) + "," + t.date + ",";
      && Row(t) == prefix + Quote(EscapeQuotes(t.note))
      && ParseQuotedField(Quote(EscapeQuotes(t.note))) == Some((t.note, ""))
  {
    NoteFieldRoundTrip(t.note, "");
    assert Quote(EscapeQuotes(t.note)) + "" == Quote(EscapeQuotes(t.note));
  }

  /** The category field as written: in the row of any record whose category
      is `a"`, the third field does not read back as the category. */
  lemma CategoryFieldCounterexample(t: Txn)
    requires t.category == "a\""
    ensures var prefix := KindName(t.kind) + "," + IntText(t.amount) + ",";
      var rest := "," + t.date + "," + Quote(EscapeQuotes(t.note));
      && Row(t) == prefix + Quote(t.category) + rest
      && ParseQuotedField(Quote(t.category) + rest) != Some((t.category, rest))
  {
    var rest := "," + t.date + "," + Quote(EscapeQuotes(t.note));
    var s := Quote(t.category) + rest;
    assert s[1..] == "a\"\"" + rest;
    ReadPastDoubled(rest);
  }

  /** Reading `a""` and a field separator never stops after `a"`: the doubled
      quote is read as one quote and the reading goes on past the comma. */
  lemma ReadPastDoubled(rest: string)
    requires rest != [] && rest[0] == ','
    ensures ReadQuoted("a\"\"" + rest).Some? ==> |ReadQuoted("a\"\"" + rest).value.0| >= 3
  {
    var d := "\"\"" + rest;
    assert d[2..] == rest;
    assert ReadQuoted(rest).Some? ==> |ReadQuoted(rest).value.0| >= 1;
    assert ReadQuoted(d).Some? ==> |ReadQuoted(d).value.0| >= 2;
    assert ("a" + d)[1..] == d;
  }

  /** One CSV line with the category escaped like the note. */
  function RowEscaped(t: Txn): string {
    KindName(t.kind) + "," + IntText(t.amount) + "," + Quote(EscapeQuotes(t.category)) + ","
      + t.date + "," + Quote(EscapeQuotes(t.note))
  }

  /** Doubling quotes changes nothing in a text without quotes. */
  lemma {:induction false} EscapeQuotesNoQuote(s: string)
    requires '"' !in s
    ensures EscapeQuotes(s) == s
    decreases |s|
  {
    if s != [] {
      assert '"' !in s[1..] by {
        assert forall c :: c in s[1..] ==> c in s;
      }
      EscapeQuotesNoQuote(s[1..]);
      assert [s[0]] + s[1..] == s;
    }
  }

  /** The corrected row differs from the row as written only for categories
      holding a double quote. */
  lemma RowEscapedAgrees(t: Txn)
    ensures '"' !in t.category ==> RowEscaped(t) == Row(t)
    ensures '"' in t.category ==> RowEscaped(t) != Row(t)
  {
    if '"' !in t.category {
      EscapeQuotesNoQuote(t.category);
    } else {
      EscapeQuotesGrows(t.category);
      var p := KindName(t.kind) + "," + IntText(t.amount) + ",";
      var q := "," + t.date + "," + Quote(EscapeQuotes(t.note));
      assert Row(t) == p + Quote(t.category) + q;
      assert RowEscaped(t) == p + Quote(EscapeQuotes(t.category)) + q;
      assert |RowEscaped(t)| > |Row(t)|;
    }
  }

  /** Doubling quotes lengthens a text holding one. */
  lemma {:induction false} EscapeQuotesGrows(s: string)
    requires '"' in s
    ensures |EscapeQuotes(s)| > |s|
    decreases |s|
  {
    if s[0] != '"' {
      assert s == [s[0]] + s[1..];
      EscapeQuotesGrows(s[1..]);
    }
  }

  /** The export with both text fields escaped. */
  function ExportCsvEscaped(store: seq<Txn>): (r: Result<string, ExportError>)
    ensures r.Err? <==> store == []
  {
    if store == [] then Err(NoTransactions)
    else Ok(JoinLines([Header] + seq(|store|, i requires 0 <= i < |store| => RowEscaped(store[i]))))
  }

  /** With escaping, the category field of every line reads back as the
      category, whatever it contains. */
  lemma CategoryFieldRoundTrip(t: Txn)
    ensures var prefix := KindName(t.kind) + "," + IntText(t.amount) + ",";
      var rest := "," + t.date + "," + Quote(EscapeQuotes(t.note));
      && RowEscaped(t) == prefix + Quote(EscapeQuotes(t.category)) + rest
      && ParseQuotedField(Quote(EscapeQuotes(t.category)) + rest) == Some((t.category, rest))
  {
    var rest := "," + t.date + "," + Quote(EscapeQuotes(t.note));
    NoteFieldRoundTrip(t.category, rest);
  }
}
