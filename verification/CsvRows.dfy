/** Classification and de-duplication of the records of an uploaded CSV file
    (services/import_job.py). The records are those the CSV reader yields. */
module CsvRows {
  import opened Text

  type Record = seq<string>
  type Row = (string, string)

  /** A message of the job's error list. */
  datatype RowError =
    | EmptyFile
    | TooFewColumns(row: nat)
    | BlankField(row: nat)

  // ---------------------------------------------------------------------
  // Parsing
  // ---------------------------------------------------------------------

  predicate IsHeaderRow(t: Locale, record: Record) {
    && |record| >= 2
    && t.lower(t.strip(record[0])) == "question"
    && t.lower(t.strip(record[1])) == "answer"
  }

  predicate IsBlank(t: Locale, record: Record) {
    forall i :: 0 <= i < |record| ==> t.strip(record[i]) == ""
  }

  /** What one record contributes, wherever it stands in the file. */
  datatype Class = Header | Blank | Bad(error: RowError) | Accepted(row: Row)

  function Classify(t: Locale, records: seq<Record>, i: nat): Class
    requires i < |records|
  {
    var r := records[i];
    if i == 0 && IsHeaderRow(t, r) then Header
    else if IsBlank(t, r) then Blank
    else if |r| < 2 then Bad(TooFewColumns(i + 1))
    else if t.strip(r[0]) == "" || t.strip(r[1]) == "" then Bad(BlankField(i + 1))
    else Accepted((t.strip(r[0]), t.strip(r[1])))
  }

  /** Rows accepted among the first n records, in file order. */
  function RowsOf(t: Locale, records: seq<Record>, n: nat): seq<Row>
    requires n <= |records|
  {
    if n == 0 then []
    else
      RowsOf(t, records, n - 1)
      + (match Classify(t, records, n - 1) case Accepted(row) => [row] case _ => [])
  }

  /** Errors reported for the first n records, in file order. */
  function ErrorsOf(t: Locale, records: seq<Record>, n: nat): seq<RowError>
    requires n <= |records|
  {
    if n == 0 then []
    else
      ErrorsOf(t, records, n - 1)
      + (match Classify(t, records, n - 1) case Bad(e) => [e] case _ => [])
  }

  /** Records among the first n that are the header or blank. */
  function IgnoredOf(t: Locale, records: seq<Record>, n: nat): nat
    requires n <= |records|
  {
    if n == 0 then 0
    else
      var c := Classify(t, records, n - 1);
      IgnoredOf(t, records, n - 1) + (if c.Header? || c.Blank? then 1 else 0)
  }

  function ParsedRows(t: Locale, records: seq<Record>): seq<Row> {
    RowsOf(t, records, |records|)
  }

  function ParseErrors(t: Locale, records: seq<Record>): seq<RowError> {
    if records == [] then [EmptyFile] else ErrorsOf(t, records, |records|)
  }

  /** The parser treats the first record apart and loops over the others. */
  method ParseCsvRows(t: Locale, records: seq<Record>) returns (rows: seq<Row>, errors: seq<RowError>)
    ensures rows == ParsedRows(t, records)
    ensures errors == ParseErrors(t, records)
  {
    rows, errors := [], [];
    if records == [] {
      return [], [EmptyFile];
    }
    var firstRow := records[0];
    var skipFirst := if firstRow != [] then IsHeaderRow(t, firstRow) else false;
    if !skipFirst && firstRow != [] {
      if firstRow == [] || IsBlank(t, firstRow) {
      } else if |firstRow| < 2 {
        errors := errors + [TooFewColumns(1)];
      } else {
        var question, answer := t.strip(firstRow[0]), t.strip(firstRow[1]);
        if question != "" && answer != "" {
          rows := rows + [(question, answer)];
        } else {
          errors := errors + [BlankField(1)];
        }
      }
    }

    var idx := 2;
    while idx <= |records|
      invariant 2 <= idx <= |records| + 1
      invariant rows == RowsOf(t, records, idx - 1)
      invariant errors == ErrorsOf(t, records, idx - 1)
    {
      var row := records[idx - 1];
      if row == [] || IsBlank(t, row) {
      } else if |row| < 2 {
        errors := errors + [TooFewColumns(idx)];
      } else {
        var question, answer := t.strip(row[0]), t.strip(row[1]);
        if question == "" || answer == "" {
          errors := errors + [BlankField(idx)];
        } else {
          rows := rows + [(question, answer)];
        }
      }
      idx := idx + 1;
    }
  }

  /** Every record is accepted, reported, or ignored, and just once. */
  lemma {:induction false} RecordsConserved(t: Locale, records: seq<Record>, n: nat)
    requires n <= |records|
    ensures |RowsOf(t, records, n)| + |ErrorsOf(t, records, n)| + IgnoredOf(t, records, n) == n
  {
    if n > 0 {
      RecordsConserved(t, records, n - 1);
    }
  }

  /** Accepted rows have no blank cell, and no white space around a cell. */
  lemma {:induction false} RowsAreClean(isSpace: char -> bool, lower: string -> string, records: seq<Record>, n: nat)
    requires n <= |records|
    ensures forall row :: row in RowsOf(LocaleOf(isSpace, lower), records, n) ==>
      && row.0 != "" && row.1 != ""
      && Trimmed(isSpace, row.0) && Trimmed(isSpace, row.1)
  {
    if n > 0 {
      RowsAreClean(isSpace, lower, records, n - 1);
      if |records[n - 1]| >= 2 {
        StripTrims(isSpace, records[n - 1][0]);
        StripTrims(isSpace, records[n - 1][1]);
      }
    }
  }

  /** Record i, if accepted, is the row at the position counting the accepted
      records before it: the file order is kept. */
  lemma {:induction false} RowsKeepOrder(t: Locale, records: seq<Record>, n: nat, i: nat)
    requires i < n <= |records|
    requires Classify(t, records, i).Accepted?
    ensures var at := |RowsOf(t, records, i)|;
      at < |RowsOf(t, records, n)| && RowsOf(t, records, n)[at] == Classify(t, records, i).row
  {
    if i < n - 1 {
      RowsKeepOrder(t, records, n - 1, i);
    }
  }

  /** Record i, if reported, has its error at the position counting those
      before it. */
  lemma {:induction false} ErrorsKeepOrder(t: Locale, records: seq<Record>, n: nat, i: nat)
    requires i < n <= |records|
    requires Classify(t, records, i).Bad?
    ensures var at := |ErrorsOf(t, records, i)|;
      at < |ErrorsOf(t, records, n)| && ErrorsOf(t, records, n)[at] == Classify(t, records, i).error
  {
    if i < n - 1 {
      ErrorsKeepOrder(t, records, n - 1, i);
    }
  }

  // ---------------------------------------------------------------------
  // De-duplication
  // ---------------------------------------------------------------------

  function NormalizePair(t: Locale, row: Row): Row {
    (t.lower(t.strip(row.0)), t.lower(t.strip(row.1)))
  }

  function Keys(t: Locale, rows: seq<Row>): set<Row> {
    if rows == [] then {}
    else Keys(t, rows[..|rows| - 1]) + {NormalizePair(t, rows[|rows| - 1])}
  }

  /** Row i is new to the deck and to the rows before it. */
  predicate IsFirst(t: Locale, rows: seq<Row>, existing: set<Row>, i: nat)
    requires i < |rows|
  {
    && NormalizePair(t, rows[i]) !in existing
    && forall j :: 0 <= j < i ==> NormalizePair(t, rows[j]) != NormalizePair(t, rows[i])
  }

  /** The first occurrences among the first n rows, in order. */
  function Kept(t: Locale, rows: seq<Row>, existing: set<Row>, n: nat): seq<Row>
    requires n <= |rows|
  {
    if n == 0 then []
    else
      Kept(t, rows, existing, n - 1)
      + (if IsFirst(t, rows, existing, n - 1) then [rows[n - 1]] else [])
  }

  function KeptRows(t: Locale, rows: seq<Row>, existing: set<Row>): seq<Row> {
    Kept(t, rows, existing, |rows|)
  }

  /** The distinct rows of a file. */
  function DistinctRows(t: Locale, rows: seq<Row>): seq<Row> {
    KeptRows(t, rows, {})
  }

  lemma {:induction false} KeptCount(t: Locale, rows: seq<Row>, existing: set<Row>, n: nat)
    requires n <= |rows|
    ensures |Kept(t, rows, existing, n)| <= n
    ensures forall row :: row in Kept(t, rows, existing, n) ==> row in rows
  {
    if n > 0 {
      KeptCount(t, rows, existing, n - 1);
    }
  }

  /** A first occurrence is kept, at the position counting those before it. */
  lemma {:induction false} FirstKeptInOrder(t: Locale, rows: seq<Row>, existing: set<Row>, n: nat, i: nat)
    requires i < n <= |rows| && IsFirst(t, rows, existing, i)
    ensures var at := |Kept(t, rows, existing, i)|;
      at < |Kept(t, rows, existing, n)| && Kept(t, rows, existing, n)[at] == rows[i]
  {
    if i < n - 1 {
      FirstKeptInOrder(t, rows, existing, n - 1, i);
    }
  }

  /** Whatever is present, only rows are kept that are kept when nothing is;
      those missing are the ones whose key is present. */
  lemma {:induction false} KeptAmongDistinct(t: Locale, rows: seq<Row>, existing: set<Row>, n: nat, row: Row)
    requires n <= |rows|
    ensures row in Kept(t, rows, existing, n) ==> row in Kept(t, rows, {}, n)
    ensures row in Kept(t, rows, {}, n) && NormalizePair(t, row) !in existing ==> row in Kept(t, rows, existing, n)
  {
    if n > 0 {
      KeptAmongDistinct(t, rows, existing, n - 1, row);
    }
  }

  lemma DistinctRowIsKept(t: Locale, rows: seq<Row>, existing: set<Row>, row: Row)
    requires row in DistinctRows(t, rows) && NormalizePair(t, row) !in existing
    ensures row in KeptRows(t, rows, existing)
  {
    KeptAmongDistinct(t, rows, existing, |rows|, row);
  }

  method DedupeRows(t: Locale, rows: seq<Row>, existing: set<Row>)
    returns (uniqueRows: seq<Row>, skipped: nat)
    ensures uniqueRows == KeptRows(t, rows, existing)
    ensures |uniqueRows| + skipped == |rows|
  {
    uniqueRows, skipped := [], 0;
    var seen := existing;
    for i := 0 to |rows|
      invariant uniqueRows == Kept(t, rows, existing, i)
      invariant |uniqueRows| + skipped == i
      invariant forall k :: k in seen <==>
        k in existing || exists j :: 0 <= j < i && NormalizePair(t, rows[j]) == k
    {
      var key := NormalizePair(t, rows[i]);
      if key in seen {
        skipped := skipped + 1;
      } else {
        seen := seen + {key};
        uniqueRows := uniqueRows + [rows[i]];
      }
    }
  }

  lemma {:induction false} KeysMembership(t: Locale, rows: seq<Row>, k: Row)
    ensures k in Keys(t, rows) <==> exists i :: 0 <= i < |rows| && NormalizePair(t, rows[i]) == k
  {
    if rows != [] {
      var last := |rows| - 1;
      KeysMembership(t, rows[..last], k);
      if i :| 0 <= i < |rows| && NormalizePair(t, rows[i]) == k {
        assert i < last ==> rows[..last][i] == rows[i];
      }
    }
  }

  /** A row is a first occurrence when its key is not among those before. */
  lemma FirstMeansNewKey(t: Locale, rows: seq<Row>, existing: set<Row>, i: nat)
    requires i < |rows|
    ensures IsFirst(t, rows, existing, i)
       <==> NormalizePair(t, rows[i]) !in existing + Keys(t, rows[..i])
  {
    KeysMembership(t, rows[..i], NormalizePair(t, rows[i]));
    assert forall j :: 0 <= j < i ==> rows[..i][j] == rows[j];
  }

  lemma KeysAppend(t: Locale, rows: seq<Row>, row: Row)
    ensures Keys(t, rows + [row]) == Keys(t, rows) + {NormalizePair(t, row)}
  {
    assert (rows + [row])[..|rows|] == rows;
  }

  lemma MinusAddedKey(kept: set<Row>, all: set<Row>, existing: set<Row>, key: Row)
    requires kept == all - existing
    ensures key !in existing + all ==> kept + {key} == all + {key} - existing
    ensures key in existing + all ==> kept == all + {key} - existing
  {
  }

  /** The kept rows bring exactly the keys that were missing. */
  lemma {:induction false} KeptKeys(t: Locale, rows: seq<Row>, existing: set<Row>, n: nat)
    requires n <= |rows|
    ensures Keys(t, Kept(t, rows, existing, n)) == Keys(t, rows[..n]) - existing
  {
    if n > 0 {
      KeptKeys(t, rows, existing, n - 1);
      FirstMeansNewKey(t, rows, existing, n - 1);
      var before := Kept(t, rows, existing, n - 1);
      var key := NormalizePair(t, rows[n - 1]);
      MinusAddedKey(Keys(t, before), Keys(t, rows[..n - 1]), existing, key);
      KeysAppend(t, rows[..n - 1], rows[n - 1]);
      KeysAppend(t, before, rows[n - 1]);
      assert rows[..n] == rows[..n - 1] + [rows[n - 1]];
      assert before + [] == before;
    }
  }

  /** No two kept rows have the same key. */
  lemma {:induction false} KeptDistinct(t: Locale, rows: seq<Row>, existing: set<Row>, n: nat)
    requires n <= |rows|
    ensures var kept := Kept(t, rows, existing, n);
      forall i, j :: 0 <= i < j < |kept| ==> NormalizePair(t, kept[i]) != NormalizePair(t, kept[j])
  {
    if n > 0 {
      KeptDistinct(t, rows, existing, n - 1);
      KeptKeys(t, rows, existing, n - 1);
      FirstMeansNewKey(t, rows, existing, n - 1);
      KeysMembership(t, Kept(t, rows, existing, n - 1), NormalizePair(t, rows[n - 1]));
    }
  }

  /** Rows whose keys are all present are all skipped. */
  lemma {:induction false} NothingNewKept(t: Locale, rows: seq<Row>, existing: set<Row>, n: nat)
    requires n <= |rows|
    requires forall i :: 0 <= i < n ==> NormalizePair(t, rows[i]) in existing
    ensures Kept(t, rows, existing, n) == []
  {
    if n > 0 {
      NothingNewKept(t, rows, existing, n - 1);
    }
  }

  /** De-duplicating the same rows again, now that the kept ones are present,
      keeps nothing. */
  lemma {:induction false} SecondDedupeKeepsNothing(t: Locale, rows: seq<Row>, existing: set<Row>, later: set<Row>)
    requires existing + Keys(t, KeptRows(t, rows, existing)) <= later
    ensures KeptRows(t, rows, later) == []
  {
    KeptKeys(t, rows, existing, |rows|);
    assert rows[..|rows|] == rows;
    forall i | 0 <= i < |rows|
      ensures NormalizePair(t, rows[i]) in later
    {
      KeysMembership(t, rows, NormalizePair(t, rows[i]));
      assert NormalizePair(t, rows[i]) in Keys(t, rows);
    }
    NothingNewKept(t, rows, later, |rows|);
  }

  // ---------------------------------------------------------------------
  // What a file means
  // ---------------------------------------------------------------------

  /** The first record is a title line: question and answer, in any case and
      spacing. */
  ghost predicate HasTitle(t: Locale, records: seq<Record>) {
    && records != [] && |records[0]| >= 2
    && t.lower(t.strip(records[0][0])) == "question" && t.lower(t.strip(records[0][1])) == "answer"
  }

  /** Record i is data: it is not the title line and has some text in it. */
  ghost predicate IsData(t: Locale, records: seq<Record>, i: nat) {
    && i < |records| && (i == 0 ==> !HasTitle(t, records))
    && exists k :: 0 <= k < |records[i]| && t.strip(records[i][k]) != ""
  }

  /** A data record is accepted when its first two cells have text, and reported
      by its number otherwise. */
  lemma ClassifiedExactly(t: Locale, records: seq<Record>, i: nat)
    requires i < |records|
    ensures var r, c := records[i], Classify(t, records, i);
      var full := |r| >= 2 && t.strip(r[0]) != "" && t.strip(r[1]) != "";
      && (c.Accepted? <==> IsData(t, records, i) && full)
      && (c.Accepted? ==> c.row == (t.strip(r[0]), t.strip(r[1])))
      && (c.Bad? <==> IsData(t, records, i) && !full)
      && (c.Bad? ==> c.error == if |r| < 2 then TooFewColumns(i + 1) else BlankField(i + 1))
  {
  }

  lemma {:induction false} RowFrom(t: Locale, records: seq<Record>, n: nat, row: Row)
    requires n <= |records|
    ensures row in RowsOf(t, records, n) <==> exists i :: 0 <= i < n && Classify(t, records, i) == Accepted(row)
  {
    if n > 0 {
      RowFrom(t, records, n - 1, row);
    }
  }

  lemma {:induction false} ErrorFrom(t: Locale, records: seq<Record>, n: nat, e: RowError)
    requires n <= |records|
    ensures e in ErrorsOf(t, records, n) <==> exists i :: 0 <= i < n && Classify(t, records, i) == Bad(e)
  {
    if n > 0 {
      ErrorFrom(t, records, n - 1, e);
    }
  }

  /** The accepted rows are the first two cells, stripped, of the data records
      that have text in both. */
  lemma RowsExactly(t: Locale, records: seq<Record>, row: Row)
    ensures row in ParsedRows(t, records) <==>
      row.0 != "" && row.1 != ""
      && exists i: nat :: IsData(t, records, i) && |records[i]| >= 2
           && row == (t.strip(records[i][0]), t.strip(records[i][1]))
  {
    RowFrom(t, records, |records|, row);
    if i :| 0 <= i < |records| && Classify(t, records, i) == Accepted(row) {
      ClassifiedExactly(t, records, i);
      assert IsData(t, records, i);
    }
    if row.0 != "" && row.1 != "" {
      if i: nat :| IsData(t, records, i) && |records[i]| >= 2
                   && row == (t.strip(records[i][0]), t.strip(records[i][1])) {
        ClassifiedExactly(t, records, i);
        assert Classify(t, records, i) == Accepted(row);
      }
    }
  }

  /** The errors are one for each other data record, naming its number, or the
      one error of a file without records. */
  lemma ErrorsExactly(t: Locale, records: seq<Record>, e: RowError)
    ensures e in ParseErrors(t, records) <==>
      match e
      case EmptyFile => records == []
      case TooFewColumns(n) => n >= 1 && IsData(t, records, n - 1) && |records[n - 1]| < 2
      case BlankField(n) =>
        n >= 1 && IsData(t, records, n - 1) && |records[n - 1]| >= 2
        && (t.strip(records[n - 1][0]) == "" || t.strip(records[n - 1][1]) == "")
  {
    ErrorFrom(t, records, |records|, e);
    if i :| 0 <= i < |records| && Classify(t, records, i) == Bad(e) {
      ClassifiedExactly(t, records, i);
    }
    if !e.EmptyFile? && e.row >= 1 && IsData(t, records, e.row - 1) {
      ClassifiedExactly(t, records, e.row - 1);
    }
  }

  lemma {:induction false} RowsShift(t: Locale, title: Record, records: seq<Record>, n: nat)
    requires n <= |records| && HasTitle(t, [title]) && !HasTitle(t, records)
    ensures RowsOf(t, [title] + records, n + 1) == RowsOf(t, records, n)
  {
    if n == 0 {
      ClassifiedExactly(t, [title] + records, 0);
      assert RowsOf(t, [title] + records, 0) == [];
    } else {
      RowsShift(t, title, records, n - 1);
      assert ([title] + records)[n] == records[n - 1];
    }
  }

  /** A file with a title line parses to the rows of the file without it. */
  lemma TitleIsDropped(t: Locale, title: Record, records: seq<Record>)
    requires HasTitle(t, [title]) && !HasTitle(t, records)
    ensures ParsedRows(t, [title] + records) == ParsedRows(t, records)
  {
    RowsShift(t, title, records, |records|);
  }

  /** Row i is kept unless the deck or an earlier row has the same question and
      answer up to letter case and surrounding white space. */
  lemma KeptUnlessDuplicate(t: Locale, rows: seq<Row>, existing: set<Row>, i: nat)
    requires i < |rows|
    ensures var q, a := t.lower(t.strip(rows[i].0)), t.lower(t.strip(rows[i].1));
      IsFirst(t, rows, existing, i) <==>
        && (q, a) !in existing
        && forall j :: 0 <= j < i ==> t.lower(t.strip(rows[j].0)) != q || t.lower(t.strip(rows[j].1)) != a
  {
    forall j | 0 <= j < i
      ensures NormalizePair(t, rows[j]) == NormalizePair(t, rows[i]) <==>
        t.lower(t.strip(rows[j].0)) == t.lower(t.strip(rows[i].0))
        && t.lower(t.strip(rows[j].1)) == t.lower(t.strip(rows[i].1))
    {
    }
  }
}
