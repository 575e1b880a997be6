/** The function `clean_data(data, acct_col_names)` of clean_data_func.py:
    it copies the table and narrows the copy in place, step by step, then
    renumbers the rows. `Clean` states what the steps compute on values;
    `CleanData` performs them on a `Frame` and is proved to compute `Clean`. */
module CleanDataFunc {
  import opened Table
  import opened DataFrame

  /** The account-number column names the script passes at line 61. */
  const ExampleAccountNames: seq<string> :=
    ["ACCT#", "ac_no", "Account_Number", "ACCOUNT_NUMBER", "ACCT_NO", "ACC_NO"]

  // ----- account columns (lines 11-14) -----

  /** The lowercased column name is one of `names` (a case-sensitive list test). */
  predicate IsAccountColumn(col: Column, names: seq<string>) {
    Lower(col.name) in names
  }

  /** The positions of the account columns, in column order. */
  function AccountColumns(columns: seq<Column>, names: seq<string>): (r: seq<nat>)
    ensures Increasing(r)
    ensures forall c: nat :: c in r <==> c < |columns| && IsAccountColumn(columns[c], names)
  {
    if columns == [] then []
    else
      var n := |columns| - 1;
      var init := AccountColumns(columns[..n], names);
      assert forall k :: 0 <= k < |init| ==> init[k] < n by {
        forall k | 0 <= k < |init| ensures init[k] < n {
          assert init[k] in init;
        }
      }
      init + (if IsAccountColumn(columns[n], names) then [n] else [])
  }

  /** The loop at lines 11-14, appending each matching column in turn. */
  method FindAccountColumns(columns: seq<Column>, names: seq<string>) returns (acctCols: seq<nat>)
    ensures acctCols == AccountColumns(columns, names)
  {
    acctCols := [];
    for c := 0 to |columns|
      invariant acctCols == AccountColumns(columns[..c], names)
    {
      assert columns[..c + 1][..c] == columns[..c];
      if Lower(columns[c].name) in names {
        acctCols := acctCols + [c];
      }
    }
    assert columns[..|columns|] == columns;
  }

  /** With the names of line 61 only a column whose lowercased name is
      "ac_no" is an account column: every other entry holds an upper-case
      letter, which a lowercased name never does. */
  lemma OnlyAcNoCanMatch(col: Column)
    ensures IsAccountColumn(col, ExampleAccountNames) ==> Lower(col.name) == "ac_no"
  {
    var l := Lower(col.name);
    assert forall i :: 0 <= i < |l| ==> !IsUpper(l[i]);
  }

  // ----- deduplication (lines 17-26) -----

  /** Lines 17-26: with account columns, drop later rows repeating a key,
      then, if some key still occurs twice, drop every row carrying it. */
  function DedupAccounts(rows: seq<Row>, acctCols: seq<nat>): seq<Row> {
    if |acctCols| > 0 then
      var once := KeepFirst(rows, acctCols);
      if |DuplicatedKeys(once, acctCols)| > 0 then KeepNone(once, acctCols) else once
    else rows
  }

  /** The second pass never finds anything: after line 18 no key occurs
      twice, so `duplicates` is empty and line 26 does not run. */
  lemma ResidualDuplicatesNeverFound(rows: seq<Row>, acctCols: seq<nat>)
    requires |acctCols| > 0
    ensures DuplicatedKeys(KeepFirst(rows, acctCols), acctCols) == {}
    ensures DedupAccounts(rows, acctCols) == KeepFirst(rows, acctCols)
  {
    KeepFirstSpec(rows, acctCols);
    UniqueKeysHaveNoDuplicates(KeepFirst(rows, acctCols), acctCols);
  }

  // ----- negative numbers and invalid dates (lines 29-42) -----

  /** The per-column checks of the two loops at lines 29-34 and 37-42. */
  datatype Check = NegativeValue | InvalidDate

  /** Line 30 (`< 0`) and line 38 (`isna() | < "1900-01-01"`) on one cell. */
  predicate Fails(check: Check, x: Cell) {
    match check
    case NegativeValue => x.Num? && x.value < 0.0
    case InvalidDate => x.Missing? || (x.Stamp? && Before(x.at, StartOf1900))
  }

  /** The boolean Series of line 30 or line 38 for column `c`. */
  function FailMask(rows: seq<Row>, c: nat, check: Check): (m: seq<bool>)
    ensures |m| == |rows|
    ensures forall i :: 0 <= i < |rows| ==> m[i] == Fails(check, CellAt(rows[i], c))
  {
    seq(|rows|, i requires 0 <= i < |rows| => Fails(check, CellAt(rows[i], c)))
  }

  /** One loop iteration: if any row fails, drop the labels of the failing rows. */
  function DropFailing(rows: seq<Row>, c: nat, check: Check): seq<Row> {
    var bad := FailMask(rows, c, check);
    if Any(bad) then DropLabels(rows, LabelsWhere(rows, bad)) else rows
  }

  /** The whole loop over the columns `cols`, in order. */
  function DropFailingIn(rows: seq<Row>, cols: seq<nat>, check: Check): seq<Row>
    decreases |cols|
  {
    if cols == [] then rows
    else DropFailing(DropFailingIn(rows, cols[..|cols| - 1], check), cols[|cols| - 1], check)
  }

  /** The row passes the check in every column of `cols`. */
  predicate PassesAll(x: Row, cols: seq<nat>, check: Check) {
    forall k :: 0 <= k < |cols| ==> !Fails(check, CellAt(x, cols[k]))
  }

  /** One loop iteration keeps only input rows that pass the check in its
      column, in their order. */
  lemma DropFailingSound(rows: seq<Row>, c: nat, check: Check)
    ensures forall x :: x in DropFailing(rows, c, check) ==> x in rows && !Fails(check, CellAt(x, c))
    ensures Narrows(DropFailing(rows, c, check), rows, {})
  {
    var bad := FailMask(rows, c, check);
    if Any(bad) {
      forall x | x in DropFailing(rows, c, check) ensures x in rows && !Fails(check, CellAt(x, c)) {
        DropFlaggedSound(rows, bad, x);
        var i :| 0 <= i < |rows| && rows[i] == x;
      }
      SelectNarrows(rows, LabelMask(rows, LabelsWhere(rows, bad)));
    } else {
      forall x | x in rows ensures !Fails(check, CellAt(x, c)) {
        var i :| 0 <= i < |rows| && rows[i] == x;
        assert bad[i] in bad;
      }
      NarrowsRefl(rows, {});
    }
  }

  /** After the loop every surviving row is an input row that passes the
      check in every column of the loop, and the rows keep their order. */
  lemma {:induction false} DropFailingInSound(rows: seq<Row>, cols: seq<nat>, check: Check)
    ensures forall x :: x in DropFailingIn(rows, cols, check) ==> x in rows && PassesAll(x, cols, check)
    ensures Narrows(DropFailingIn(rows, cols, check), rows, {})
    decreases |cols|
  {
    if cols == [] {
      NarrowsRefl(rows, {});
    } else {
      var m := |cols| - 1;
      var cs, c := cols[..m], cols[m];
      assert cs + [c] == cols;
      DropFailingInSound(rows, cs, check);
      var s := DropFailingIn(rows, cs, check);
      DropFailingSound(s, c, check);
      forall x | x in DropFailing(s, c, check) ensures x in rows && PassesAll(x, cols, check) {
        PassesAllSnoc(x, cs, c, check);
      }
      NarrowsTrans(DropFailing(s, c, check), s, rows, {}, {});
      var none: set<nat> := {};
      assert none + none == none;
    }
  }

  /** The mask of rows passing the check in every column of `cols`. */
  function PassMask(rows: seq<Row>, cols: seq<nat>, check: Check): (m: seq<bool>)
    ensures |m| == |rows|
    ensures forall i :: 0 <= i < |rows| ==> m[i] == PassesAll(rows[i], cols, check)
  {
    seq(|rows|, i requires 0 <= i < |rows| => PassesAll(rows[i], cols, check))
  }

  /** One loop iteration removes exactly the rows failing in its column,
      when the labels are distinct. */
  lemma DropFailingExact(rows: seq<Row>, c: nat, check: Check)
    requires DistinctLabels(rows)
    ensures DropFailing(rows, c, check) == Select(rows, Not(FailMask(rows, c, check)))
  {
    var bad := FailMask(rows, c, check);
    if Any(bad) {
      DropFlaggedExact(rows, bad);
    } else {
      forall i | 0 <= i < |rows| ensures Not(bad)[i] {
        assert bad[i] in bad;
      }
      SelectAll(rows, Not(bad));
    }
  }

  lemma PassesAllSnoc(x: Row, cs: seq<nat>, c: nat, check: Check)
    ensures PassesAll(x, cs + [c], check) <==> PassesAll(x, cs, check) && !Fails(check, CellAt(x, c))
  {
    var cols := cs + [c];
    if PassesAll(x, cs, check) && !Fails(check, CellAt(x, c)) {
      forall k | 0 <= k < |cols| ensures !Fails(check, CellAt(x, cols[k])) {
        if k < |cs| {
          assert cols[k] == cs[k];
        }
      }
    }
    if PassesAll(x, cols, check) {
      forall k | 0 <= k < |cs| ensures !Fails(check, CellAt(x, cs[k])) {
        assert cs[k] == cols[k];
      }
      assert cols[|cs|] == c;
    }
  }

  /** One more loop iteration on rows that pass the check in `cs` keeps
      the rows that pass it in `cs + [c]`. */
  lemma DropFailingStep(rows: seq<Row>, cs: seq<nat>, c: nat, check: Check)
    requires DistinctLabels(rows)
    ensures DropFailing(Select(rows, PassMask(rows, cs, check)), c, check)
         == Select(rows, PassMask(rows, cs + [c], check))
  {
    var keep := PassMask(rows, cs, check);
    var s := Select(rows, keep);
    SelectKeepsDistinctLabels(rows, keep);
    DropFailingExact(s, c, check);
    var p := (x: Row) => !Fails(check, CellAt(x, c));
    assert Not(FailMask(s, c, check)) == MaskOf(s, p);
    SelectThenFilter(rows, keep, p);
    forall i | 0 <= i < |rows| ensures KeepAnd(rows, keep, p)[i] == PassMask(rows, cs + [c], check)[i] {
      PassesAllSnoc(rows[i], cs, c, check);
    }
    assert KeepAnd(rows, keep, p) == PassMask(rows, cs + [c], check);
  }

  /** With distinct labels, dropping column by column keeps the same rows
      as one filter on "passes the check in every column". */
  lemma {:induction false} DropFailingInIsOneFilter(rows: seq<Row>, cols: seq<nat>, check: Check)
    requires DistinctLabels(rows)
    ensures DropFailingIn(rows, cols, check) == Select(rows, PassMask(rows, cols, check))
    decreases |cols|
  {
    if cols == [] {
      SelectAll(rows, PassMask(rows, cols, check));
    } else {
      var m := |cols| - 1;
      DropFailingInIsOneFilter(rows, cols[..m], check);
      DropFailingStep(rows, cols[..m], cols[m], check);
      assert cols[..m] + [cols[m]] == cols;
    }
  }

  // ----- text columns holding dates (lines 44-52) -----

  /** What `dateutil.parser.parse` does with one value: a timestamp, a
      `ValueError` (which line 48 catches), or another exception. */
  datatype ParseOutcome = Parsed(at: Timestamp) | ValueError | OtherError

  /** dateutil parses strings only; any other value makes it raise a
      `TypeError`, which is not a `ValueError`. */
  function ParseCell(parse: string -> ParseOutcome, x: Cell): ParseOutcome {
    match x
    case Str(s) => parse(s)
    case _ => OtherError
  }

  predicate ParsesAt(parse: string -> ParseOutcome, r: Row, c: nat) {
    ParseCell(parse, CellAt(r, c)).Parsed?
  }

  /** The outcome of `Series.apply(parse)` on a column: the parsed values,
      or the first exception, which stops the apply. */
  datatype Applied = AllParsed(values: seq<Cell>) | RaisedValueError | RaisedOtherError

  function ApplyParse(rows: seq<Row>, c: nat, parse: string -> ParseOutcome): (r: Applied)
    ensures r.AllParsed? <==> forall i :: 0 <= i < |rows| ==> ParsesAt(parse, rows[i], c)
    ensures r.AllParsed? ==> |r.values| == |rows|
    ensures r.AllParsed? ==> forall i :: 0 <= i < |rows| ==>
              r.values[i] == Stamp(ParseCell(parse, CellAt(rows[i], c)).at)
  {
    if rows == [] then AllParsed([])
    else
      match ParseCell(parse, CellAt(rows[0], c))
      case Parsed(at) =>
        (match ApplyParse(rows[1..], c, parse)
         case AllParsed(values) => AllParsed([Stamp(at)] + values)
         case other =>
           assert !ParsesAt(parse, rows[1..][0], c) || exists i :: 0 <= i < |rows| - 1 && !ParsesAt(parse, rows[1..][i], c);
           other)
      case ValueError => RaisedValueError
      case OtherError => RaisedOtherError
  }

  /** The first value that does not parse decides which exception the
      apply raises. */
  lemma {:induction false} ApplyParseRaisesFirst(rows: seq<Row>, c: nat, parse: string -> ParseOutcome, i: nat)
    requires i < |rows|
    requires forall j :: 0 <= j < i ==> ParsesAt(parse, rows[j], c)
    requires !ParsesAt(parse, rows[i], c)
    ensures ApplyParse(rows, c, parse)
         == if ParseCell(parse, CellAt(rows[i], c)).ValueError? then RaisedValueError else RaisedOtherError
  {
    if i > 0 {
      ApplyParseRaisesFirst(rows[1..], c, parse, i - 1);
      assert ParsesAt(parse, rows[0], c);
    }
  }

  /** The boolean Series of line 50: the values `pd.to_datetime(...,
      errors="coerce")` turns into NaT. */
  function CoerceFailMask(rows: seq<Row>, c: nat, coerce: Cell -> Option<Timestamp>): (m: seq<bool>)
    ensures |m| == |rows|
    ensures forall i :: 0 <= i < |rows| ==> m[i] == coerce(CellAt(rows[i], c)).None?
  {
    seq(|rows|, i requires 0 <= i < |rows| => coerce(CellAt(rows[i], c)).None?)
  }

  /** Line 45: the lowercased column name contains "date". */
  predicate IsDateName(name: string) {
    HasSubstring(Lower(name), "date")
  }

  /** An exception other than `ValueError` escaped from line 47 while
      parsing the named column; `clean_data` returns nothing. */
  datatype Raised = Raised(column: string)

  /** Lines 45-52 for the column `c`. */
  function ParseDateColumn(t: Table, c: nat, parse: string -> ParseOutcome,
                           coerce: Cell -> Option<Timestamp>): Result<Table, Raised>
  {
    if c < |t.columns| && IsDateName(t.columns[c].name) then
      match ApplyParse(t.rows, c, parse)
      case AllParsed(values) =>
        Ok(Table(t.columns[c := Column(t.columns[c].name, DateTimeKind)], SetColumn(t.rows, c, values)))
      case RaisedValueError =>
        var invalidDates := CoerceFailMask(t.rows, c, coerce);
        Ok(Table(t.columns, DropLabels(t.rows, LabelsWhere(t.rows, invalidDates))))
      case RaisedOtherError => Err(Raised(t.columns[c].name))
    else Ok(t)
  }

  /** The loop of line 44 over the columns `cols`, in order; an escaping
      exception ends it. */
  function ParseTextDates(t: Table, cols: seq<nat>, parse: string -> ParseOutcome,
                          coerce: Cell -> Option<Timestamp>): Result<Table, Raised>
    decreases |cols|
  {
    if cols == [] then Ok(t)
    else
      match ParseTextDates(t, cols[..|cols| - 1], parse, coerce)
      case Ok(t') => ParseDateColumn(t', cols[|cols| - 1], parse, coerce)
      case Err(e) => Err(e)
  }

  /** An exception in one column ends the whole loop with that exception. */
  lemma {:induction false} ParseTextDatesStopsAtError(t: Table, cols: seq<nat>, i: nat, parse: string -> ParseOutcome,
                                                      coerce: Cell -> Option<Timestamp>)
    requires i <= |cols|
    requires ParseTextDates(t, cols[..i], parse, coerce).Err?
    ensures ParseTextDates(t, cols, parse, coerce) == ParseTextDates(t, cols[..i], parse, coerce)
    decreases |cols|
  {
    if i < |cols| {
      var m := |cols| - 1;
      assert cols[..m][..i] == cols[..i];
      ParseTextDatesStopsAtError(t, cols[..m], i, parse, coerce);
    } else {
      assert cols[..i] == cols;
    }
  }

  // ----- the whole function -----

  /** The rows after line 42: no missing cell, deduplicated on the account
      columns, no negative number, no invalid timestamp. */
  function AfterDateChecks(t: Table, names: seq<string>): seq<Row> {
    var complete := DropIncomplete(t.rows);
    var deduped := DedupAccounts(complete, AccountColumns(t.columns, names));
    var nonNegative := DropFailingIn(deduped, ColumnsOfKind(t.columns, {IntKind, FloatKind}), NegativeValue);
    DropFailingIn(nonNegative, ColumnsOfKind(t.columns, {DateTimeKind}), InvalidDate)
  }

  /** What `clean_data` returns for the table `t`: the cleaned table, or the
      exception that escaped. */
  function Clean(t: Table, names: seq<string>, parse: string -> ParseOutcome,
                 coerce: Cell -> Option<Timestamp>): Result<Table, Raised>
  {
    match ParseTextDates(Table(t.columns, AfterDateChecks(t, names)), ColumnsOfKind(t.columns, {ObjectKind}), parse, coerce)
    case Ok(parsed) => Ok(Table(parsed.columns, Renumber(parsed.rows)))
    case Err(e) => Err(e)
  }

  /** Lines 17-26 on the frame. */
  method DropDuplicateAccounts(cleanedData: Frame, acctCols: seq<nat>)
    modifies cleanedData
    ensures cleanedData.columns == old(cleanedData.columns)
    ensures cleanedData.rows == DedupAccounts(old(cleanedData.rows), acctCols)
  {
    if |acctCols| > 0 {
      cleanedData.DropDuplicates(acctCols, KeepFirstRow);
      var duplicates := DuplicatedKeys(cleanedData.rows, acctCols);
      if |duplicates| > 0 {
        cleanedData.DropDuplicates(acctCols, KeepNoDuplicate);
      }
    }
  }

  /** The loops of lines 29-34 and 37-42 on the frame: for each column in
      turn, drop the rows failing the check there. */
  method DropFailingRows(cleanedData: Frame, cols: seq<nat>, check: Check)
    modifies cleanedData
    ensures cleanedData.columns == old(cleanedData.columns)
    ensures cleanedData.rows == DropFailingIn(old(cleanedData.rows), cols, check)
  {
    ghost var start := cleanedData.rows;
    for i := 0 to |cols|
      invariant cleanedData.columns == old(cleanedData.columns)
      invariant cleanedData.rows == DropFailingIn(start, cols[..i], check)
    {
      assert cols[..i + 1][..i] == cols[..i];
      var col := cols[i];
      var failing := FailMask(cleanedData.rows, col, check);
      if Any(failing) {
        cleanedData.Drop(LabelsWhere(cleanedData.rows, failing));
      }
    }
    assert cols[..|cols|] == cols;
  }

  /** The loop of lines 44-52 on the frame; `raised` is the exception that
      escaped, if any. */
  method ParseDateColumns(cleanedData: Frame, objectCols: seq<nat>, parse: string -> ParseOutcome,
                          coerce: Cell -> Option<Timestamp>) returns (raised: Option<Raised>)
    modifies cleanedData
    ensures raised.None? ==> ParseTextDates(old(cleanedData.Value()), objectCols, parse, coerce) == Ok(cleanedData.Value())
    ensures raised.Some? ==> ParseTextDates(old(cleanedData.Value()), objectCols, parse, coerce) == Err(raised.value)
  {
    ghost var start := cleanedData.Value();
    for i := 0 to |objectCols|
      invariant ParseTextDates(start, objectCols[..i], parse, coerce) == Ok(cleanedData.Value())
    {
      assert objectCols[..i + 1][..i] == objectCols[..i];
      var col := objectCols[i];
      if col < |cleanedData.columns| && IsDateName(cleanedData.columns[col].name) {
        var applied := ApplyParse(cleanedData.rows, col, parse);
        match applied {
          case AllParsed(values) =>
            cleanedData.Assign(col, values, DateTimeKind);
          case RaisedValueError =>
            var invalidDates := CoerceFailMask(cleanedData.rows, col, coerce);
            cleanedData.Drop(LabelsWhere(cleanedData.rows, invalidDates));
          case RaisedOtherError =>
            ParseTextDatesStopsAtError(start, objectCols, i + 1, parse, coerce);
            return Some(Raised(cleanedData.columns[col].name));
        }
      }
    }
    assert objectCols[..|objectCols|] == objectCols;
    return None;
  }

  /** `clean_data(data, acct_col_names)`, with `dateutil.parser.parse` and
      `pd.to_datetime(..., errors="coerce")` passed in as `parse` and
      `coerce`. The caller's frame is never changed: the method has no
      `modifies` clause and works on a fresh copy. */
  method CleanData(data: Frame, acctColNames: seq<string>, parse: string -> ParseOutcome,
                   coerce: Cell -> Option<Timestamp>) returns (result: Result<Frame, Raised>)
    ensures data.Value() == old(data.Value())
    ensures result.Ok? ==> fresh(result.value)
    ensures result.Ok? ==> Clean(data.Value(), acctColNames, parse, coerce) == Ok(result.value.Value())
    ensures result.Err? ==> Clean(data.Value(), acctColNames, parse, coerce) == Err(result.error)
  {
    ghost var t := data.Value();
    var cleanedData := data.Copy();
    cleanedData.DropNa();
    var acctCols := FindAccountColumns(cleanedData.columns, acctColNames);
    DropDuplicateAccounts(cleanedData, acctCols);
    var numericCols := ColumnsOfKind(cleanedData.columns, {IntKind, FloatKind});
    DropFailingRows(cleanedData, numericCols, NegativeValue);
    var dateCols := ColumnsOfKind(cleanedData.columns, {DateTimeKind});
    DropFailingRows(cleanedData, dateCols, InvalidDate);
    assert cleanedData.Value() == Table(t.columns, AfterDateChecks(t, acctColNames));
    var objectCols := ColumnsOfKind(cleanedData.columns, {ObjectKind});
    var raised := ParseDateColumns(cleanedData, objectCols, parse, coerce);
    if raised.Some? {
      return Err(raised.value);
    }
    cleanedData.ResetIndex();
    return Ok(cleanedData);
  }
}
