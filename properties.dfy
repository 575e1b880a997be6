/** What `clean_data` promises about its result as a whole, stated on
    `Clean`: the result narrows the input, has no missing cell, no negative
    number and no timestamp before 1900 in the columns checked for them,
    unique account keys, and row labels 0..n-1; and what happens to one
    text column holding dates. */
module CleanDataProperties {
  import opened Table
  import opened DataFrame
  import opened CleanDataFunc

  /** The object columns whose lowercased name contains "date": the only
      columns whose cells `clean_data` may rewrite (line 47). */
  ghost function TextDateColumns(columns: seq<Column>): set<nat> {
    set c: nat | c < |columns| && columns[c].kind == ObjectKind && IsDateName(columns[c].name)
  }

  /** The columns among `cols` whose name contains "date". */
  ghost function NamedDates(columns: seq<Column>, cols: seq<nat>): set<nat> {
    set c: nat | c in cols && c < |columns| && IsDateName(columns[c].name)
  }

  // ----- one text column holding dates (lines 45-52) -----

  /** Every value parses: the column is replaced by the parsed timestamps,
      takes the datetime kind, and no row is removed or relabelled. */
  lemma ParseDateColumnAllParsed(t: Table, c: nat, parse: string -> ParseOutcome,
                                 coerce: Cell -> Option<Timestamp>)
    requires c < |t.columns| && IsDateName(t.columns[c].name)
    requires forall i :: 0 <= i < |t.rows| ==> ParsesAt(parse, t.rows[i], c)
    ensures ParseDateColumn(t, c, parse, coerce).Ok?
    ensures var t' := ParseDateColumn(t, c, parse, coerce).value;
      && t'.columns == t.columns[c := Column(t.columns[c].name, DateTimeKind)]
      && |t'.rows| == |t.rows|
      && forall i :: 0 <= i < |t.rows| ==>
           && t'.rows[i].index == t.rows[i].index
           && |t'.rows[i].cells| == |t.rows[i].cells|
           && forall d :: 0 <= d < |t.rows[i].cells| ==>
                t'.rows[i].cells[d] == if d == c then Stamp(ParseCell(parse, CellAt(t.rows[i], c)).at)
                                       else t.rows[i].cells[d]
  {
    var applied := ApplyParse(t.rows, c, parse);
    assert applied.AllParsed?;
  }

  /** The first value that does not parse raises `ValueError`: the column
      keeps its text, and the rows go whose label is the label of a value
      `pd.to_datetime` cannot coerce. With distinct labels these are exactly
      the rows whose value cannot be coerced. */
  lemma ParseDateColumnFallback(t: Table, c: nat, parse: string -> ParseOutcome,
                                coerce: Cell -> Option<Timestamp>, i: nat)
    requires c < |t.columns| && IsDateName(t.columns[c].name)
    requires i < |t.rows| && ParseCell(parse, CellAt(t.rows[i], c)) == ValueError
    requires forall j :: 0 <= j < i ==> ParsesAt(parse, t.rows[j], c)
    ensures ParseDateColumn(t, c, parse, coerce).Ok?
    ensures var t' := ParseDateColumn(t, c, parse, coerce).value;
      && t'.columns == t.columns
      && Narrows(t'.rows, t.rows, {})
      && (forall x :: x in t'.rows ==> x in t.rows && coerce(CellAt(x, c)).Some?)
      && (DistinctLabels(t.rows) ==>
            forall x :: x in t'.rows <==> x in t.rows && coerce(CellAt(x, c)).Some?)
  {
    ApplyParseRaisesFirst(t.rows, c, parse, i);
    var bad := CoerceFailMask(t.rows, c, coerce);
    var r := DropLabels(t.rows, LabelsWhere(t.rows, bad));
    forall x | x in r ensures x in t.rows && coerce(CellAt(x, c)).Some? {
      DropFlaggedSound(t.rows, bad, x);
      var k :| 0 <= k < |t.rows| && t.rows[k] == x;
    }
    SelectNarrows(t.rows, LabelMask(t.rows, LabelsWhere(t.rows, bad)));
    if DistinctLabels(t.rows) {
      DropFlaggedExact(t.rows, bad);
      forall x | x in t.rows && coerce(CellAt(x, c)).Some? ensures x in r {
        var k :| 0 <= k < |t.rows| && t.rows[k] == x;
        assert Not(bad)[k];
      }
    }
  }

  /** The first value that does not parse raises anything else (a value
      that is not a string, say): the exception escapes `clean_data`. */
  lemma ParseDateColumnRaises(t: Table, c: nat, parse: string -> ParseOutcome,
                              coerce: Cell -> Option<Timestamp>, i: nat)
    requires c < |t.columns| && IsDateName(t.columns[c].name)
    requires i < |t.rows| && ParseCell(parse, CellAt(t.rows[i], c)) == OtherError
    requires forall j :: 0 <= j < i ==> ParsesAt(parse, t.rows[j], c)
    ensures ParseDateColumn(t, c, parse, coerce) == Err(Raised(t.columns[c].name))
  {
    ApplyParseRaisesFirst(t.rows, c, parse, i);
  }

  // ----- the loop of line 44 -----

  /** The columns `ParseDateColumn` may rewrite: `c`, if it is date-named. */
  ghost function ParsedColumn(columns: seq<Column>, c: nat): set<nat> {
    if c < |columns| && IsDateName(columns[c].name) then {c} else {}
  }

  /** One column of the loop of line 44 keeps the column names, changes at
      most the kind of column `c`, and only to datetime, and only narrows the
      rows, rewriting cells of column `c` alone. */
  lemma ParseDateColumnNarrows(t: Table, c: nat, parse: string -> ParseOutcome,
                               coerce: Cell -> Option<Timestamp>)
    requires ParseDateColumn(t, c, parse, coerce).Ok?
    ensures var t' := ParseDateColumn(t, c, parse, coerce).value;
      && |t'.columns| == |t.columns|
      && (forall d :: 0 <= d < |t.columns| ==> t'.columns[d].name == t.columns[d].name)
      && (forall d: nat :: d < |t.columns| && d !in ParsedColumn(t.columns, c) ==> t'.columns[d] == t.columns[d])
      && (forall d: nat :: d < |t.columns| ==> t'.columns[d].kind in {t.columns[d].kind, DateTimeKind})
      && Narrows(t'.rows, t.rows, ParsedColumn(t.columns, c))
  {
    var t' := ParseDateColumn(t, c, parse, coerce).value;
    if c < |t.columns| && IsDateName(t.columns[c].name) {
      match ApplyParse(t.rows, c, parse)
      case AllParsed(values) =>
        SetColumnNarrows(t.rows, c, values);
      case RaisedValueError =>
        var bad := CoerceFailMask(t.rows, c, coerce);
        SelectNarrows(t.rows, LabelMask(t.rows, LabelsWhere(t.rows, bad)));
        NarrowsWiden(t'.rows, t.rows, {}, {c});
    } else {
      NarrowsRefl(t.rows, {});
    }
  }

  /** The loop over text columns keeps the column names and the kinds of
      the columns it does not parse, and only narrows the rows, rewriting
      cells of date-named columns among `cols` alone. */
  lemma {:induction false} ParseTextDatesNarrows(t: Table, cols: seq<nat>, parse: string -> ParseOutcome,
                                                 coerce: Cell -> Option<Timestamp>)
    requires ParseTextDates(t, cols, parse, coerce).Ok?
    ensures var t' := ParseTextDates(t, cols, parse, coerce).value;
      && |t'.columns| == |t.columns|
      && (forall c :: 0 <= c < |t.columns| ==> t'.columns[c].name == t.columns[c].name)
      && (forall c: nat :: c < |t.columns| && c !in NamedDates(t.columns, cols) ==> t'.columns[c] == t.columns[c])
      && (forall c: nat :: c < |t.columns| ==> t'.columns[c].kind in {t.columns[c].kind, DateTimeKind})
      && Narrows(t'.rows, t.rows, NamedDates(t.columns, cols))
    decreases |cols|
  {
    if cols == [] {
      NarrowsRefl(t.rows, {});
      assert NamedDates(t.columns, cols) == {};
    } else {
      var m := |cols| - 1;
      var cs, c := cols[..m], cols[m];
      var e, e' := NamedDates(t.columns, cs), NamedDates(t.columns, cols);
      assert forall d :: d in cs ==> d in cols;
      assert e <= e';
      var t1 := ParseTextDates(t, cs, parse, coerce).value;
      ParseTextDatesNarrows(t, cs, parse, coerce);
      var t2 := ParseDateColumn(t1, c, parse, coerce).value;
      ParseDateColumnNarrows(t1, c, parse, coerce);
      var pc := ParsedColumn(t1.columns, c);
      assert pc <= e' by {
        if c < |t1.columns| && IsDateName(t1.columns[c].name) {
          assert c in e';
        }
      }
      NarrowsTrans(t2.rows, t1.rows, t.rows, pc, e);
      NarrowsWiden(t2.rows, t.rows, pc + e, e');
    }
  }

  // ----- lines 8-42 -----

  /** `DedupAccounts` only leaves rows out. */
  lemma DedupNarrows(rows: seq<Row>, acctCols: seq<nat>)
    ensures forall x :: x in DedupAccounts(rows, acctCols) ==> x in rows
    ensures Narrows(DedupAccounts(rows, acctCols), rows, {})
  {
    if |acctCols| > 0 {
      var once := KeepFirst(rows, acctCols);
      SelectNarrows(rows, FirstMask(rows, acctCols));
      ResidualDuplicatesNeverFound(rows, acctCols);
    } else {
      NarrowsRefl(rows, {});
    }
  }

  /** After line 42 every row is a complete input row with no negative
      number in a numeric column and no missing or pre-1900 timestamp in a
      datetime column, and the rows keep their order. */
  lemma AfterDateChecksSound(t: Table, names: seq<string>)
    ensures var complete := DropIncomplete(t.rows);
      && Narrows(AfterDateChecks(t, names), complete, {})
      && forall x :: x in AfterDateChecks(t, names) ==>
           && x in complete
           && PassesAll(x, ColumnsOfKind(t.columns, {IntKind, FloatKind}), NegativeValue)
           && PassesAll(x, ColumnsOfKind(t.columns, {DateTimeKind}), InvalidDate)
  {
    var complete := DropIncomplete(t.rows);
    var deduped := DedupAccounts(complete, AccountColumns(t.columns, names));
    var numericCols := ColumnsOfKind(t.columns, {IntKind, FloatKind});
    var dateCols := ColumnsOfKind(t.columns, {DateTimeKind});
    var nonNegative := DropFailingIn(deduped, numericCols, NegativeValue);
    var result := DropFailingIn(nonNegative, dateCols, InvalidDate);
    DedupNarrows(complete, AccountColumns(t.columns, names));
    DropFailingInSound(deduped, numericCols, NegativeValue);
    DropFailingInSound(nonNegative, dateCols, InvalidDate);
    var none: set<nat> := {};
    NarrowsTrans(nonNegative, deduped, complete, none, none);
    NarrowsTrans(result, nonNegative, complete, none, none + none);
    assert none + (none + none) == none;
  }

  // ----- the whole function -----

  /** Line 44 selects the object columns, so the cells it may rewrite are
      those of the text-date columns. */
  lemma NamedObjectDates(columns: seq<Column>)
    ensures NamedDates(columns, ColumnsOfKind(columns, {ObjectKind})) == TextDateColumns(columns)
  {
  }

  /** Every row of the result is a row left after line 42, relabelled,
      with cells of text-date columns possibly replaced by timestamps; the
      columns keep their names, and only text-date columns change kind. */
  lemma CleanNarrows(t: Table, names: seq<string>, parse: string -> ParseOutcome,
                     coerce: Cell -> Option<Timestamp>)
    requires Clean(t, names, parse, coerce).Ok?
    ensures var out := Clean(t, names, parse, coerce).value;
      && |out.columns| == |t.columns|
      && (forall c :: 0 <= c < |t.columns| ==> out.columns[c].name == t.columns[c].name)
      && (forall c: nat :: c < |t.columns| && c !in TextDateColumns(t.columns) ==> out.columns[c] == t.columns[c])
      && (forall c: nat :: c < |t.columns| ==> out.columns[c].kind in {t.columns[c].kind, DateTimeKind})
      && Narrows(out.rows, AfterDateChecks(t, names), TextDateColumns(t.columns))
  {
    var objectCols := ColumnsOfKind(t.columns, {ObjectKind});
    var after := Table(t.columns, AfterDateChecks(t, names));
    var parsed := ParseTextDates(after, objectCols, parse, coerce).value;
    ParseTextDatesNarrows(after, objectCols, parse, coerce);
    NamedObjectDates(t.columns);
    RenumberNarrows(parsed.rows);
    NarrowsTrans(Renumber(parsed.rows), parsed.rows, after.rows, {}, TextDateColumns(t.columns));
    assert {} + TextDateColumns(t.columns) == TextDateColumns(t.columns);
  }

  /** The caller's rows, in their order: every output row is an input row
      (up to its label and its text-date cells), and the output is no longer
      than the input. */
  lemma CleanKeepsOrder(t: Table, names: seq<string>, parse: string -> ParseOutcome,
                        coerce: Cell -> Option<Timestamp>)
    requires Clean(t, names, parse, coerce).Ok?
    ensures Narrows(Clean(t, names, parse, coerce).value.rows, t.rows, TextDateColumns(t.columns))
    ensures |Clean(t, names, parse, coerce).value.rows| <= |t.rows|
  {
    var out := Clean(t, names, parse, coerce).value;
    var complete := DropIncomplete(t.rows);
    CleanNarrows(t, names, parse, coerce);
    AfterDateChecksSound(t, names);
    SelectNarrows(t.rows, MaskOf(t.rows, Complete));
    NarrowsTrans(AfterDateChecks(t, names), complete, t.rows, {}, {});
    NarrowsTrans(out.rows, AfterDateChecks(t, names), t.rows, TextDateColumns(t.columns), {} + {});
    var none: set<nat> := {};
    assert TextDateColumns(t.columns) + (none + none) == TextDateColumns(t.columns);
    NarrowsShorter(out.rows, t.rows, TextDateColumns(t.columns));
  }

  /** Line 55: the result is labelled 0, 1, ..., n-1. */
  lemma CleanRenumbers(t: Table, names: seq<string>, parse: string -> ParseOutcome,
                       coerce: Cell -> Option<Timestamp>)
    requires Clean(t, names, parse, coerce).Ok?
    ensures var out := Clean(t, names, parse, coerce).value;
      forall i :: 0 <= i < |out.rows| ==> out.rows[i].index == i
  {
  }

  /** An output row agrees with some row left after line 42. */
  lemma CleanRowFrom(t: Table, names: seq<string>, parse: string -> ParseOutcome,
                     coerce: Cell -> Option<Timestamp>, x: Row)
    requires Clean(t, names, parse, coerce).Ok?
    requires x in Clean(t, names, parse, coerce).value.rows
    ensures exists y :: y in AfterDateChecks(t, names) && Agree(x, y, TextDateColumns(t.columns))
  {
    var out := Clean(t, names, parse, coerce).value;
    CleanNarrows(t, names, parse, coerce);
    var i :| 0 <= i < |out.rows| && out.rows[i] == x;
    NarrowsFrom(out.rows, AfterDateChecks(t, names), TextDateColumns(t.columns), i);
    var j :| 0 <= j < |AfterDateChecks(t, names)| && Agree(x, AfterDateChecks(t, names)[j], TextDateColumns(t.columns));
  }

  /** Line 8, carried to the result: no output row has a missing cell;
      when every input row has one cell per column, so does every output
      row, and no column of any output row is missing. */
  lemma CleanNoMissing(t: Table, names: seq<string>, parse: string -> ParseOutcome,
                       coerce: Cell -> Option<Timestamp>)
    requires Clean(t, names, parse, coerce).Ok?
    ensures forall x :: x in Clean(t, names, parse, coerce).value.rows ==> Complete(x)
    ensures WellFormed(t) ==> var out := Clean(t, names, parse, coerce).value;
      && WellFormed(out)
      && forall x, c :: x in out.rows && 0 <= c < |out.columns| ==> !CellAt(x, c).Missing?
  {
    var out := Clean(t, names, parse, coerce).value;
    CleanNarrows(t, names, parse, coerce);
    forall x | x in out.rows
      ensures Complete(x)
      ensures WellFormed(t) ==> |x.cells| == |out.columns|
    {
      CleanRowComplete(t, names, parse, coerce, x);
    }
  }

  /** An output row is complete and as wide as the input row it came from. */
  lemma CleanRowComplete(t: Table, names: seq<string>, parse: string -> ParseOutcome,
                         coerce: Cell -> Option<Timestamp>, x: Row)
    requires Clean(t, names, parse, coerce).Ok?
    requires x in Clean(t, names, parse, coerce).value.rows
    ensures Complete(x)
    ensures WellFormed(t) ==> |x.cells| == |t.columns|
  {
    CleanRowFrom(t, names, parse, coerce, x);
    var y :| y in AfterDateChecks(t, names) && Agree(x, y, TextDateColumns(t.columns));
    AfterDateChecksSound(t, names);
    assert y in DropIncomplete(t.rows);
  }

  /** A cell outside the text-date columns is the same in an output row as
      in the row it came from. */
  lemma AgreeOutside(x: Row, y: Row, except: set<nat>, c: nat)
    requires Agree(x, y, except) && c !in except
    ensures CellAt(x, c) == CellAt(y, c)
  {
  }

  /** Lines 29-34, carried to the result: in every column that was an int
      or float column, no output row holds a negative number (zero stays). */
  lemma CleanNoNegative(t: Table, names: seq<string>, parse: string -> ParseOutcome,
                        coerce: Cell -> Option<Timestamp>)
    requires Clean(t, names, parse, coerce).Ok?
    ensures forall x, c: nat ::
              (x in Clean(t, names, parse, coerce).value.rows &&
               c < |t.columns| && t.columns[c].kind in {IntKind, FloatKind}) ==>
              !(CellAt(x, c).Num? && CellAt(x, c).value < 0.0)
  {
    var numericCols := ColumnsOfKind(t.columns, {IntKind, FloatKind});
    forall x, c: nat | x in Clean(t, names, parse, coerce).value.rows &&
                       c < |t.columns| && t.columns[c].kind in {IntKind, FloatKind}
      ensures !(CellAt(x, c).Num? && CellAt(x, c).value < 0.0)
    {
      CleanRowFrom(t, names, parse, coerce, x);
      var y :| y in AfterDateChecks(t, names) && Agree(x, y, TextDateColumns(t.columns));
      AfterDateChecksSound(t, names);
      AgreeOutside(x, y, TextDateColumns(t.columns), c);
      var k :| 0 <= k < |numericCols| && numericCols[k] == c;
      assert !Fails(NegativeValue, CellAt(y, numericCols[k]));
    }
  }

  /** Lines 37-42, carried to the result: in every column that was a
      datetime column, each output row holds a timestamp no earlier than
      1900-01-01 (that day itself stays). */
  lemma CleanDatesFrom1900(t: Table, names: seq<string>, parse: string -> ParseOutcome,
                           coerce: Cell -> Option<Timestamp>)
    requires Clean(t, names, parse, coerce).Ok?
    ensures forall x, c: nat ::
              (x in Clean(t, names, parse, coerce).value.rows &&
               c < |t.columns| && t.columns[c].kind == DateTimeKind) ==>
              !CellAt(x, c).Missing? && !(CellAt(x, c).Stamp? && Before(CellAt(x, c).at, StartOf1900))
  {
    var dateCols := ColumnsOfKind(t.columns, {DateTimeKind});
    forall x, c: nat | x in Clean(t, names, parse, coerce).value.rows &&
                       c < |t.columns| && t.columns[c].kind == DateTimeKind
      ensures !CellAt(x, c).Missing? && !(CellAt(x, c).Stamp? && Before(CellAt(x, c).at, StartOf1900))
    {
      CleanRowFrom(t, names, parse, coerce, x);
      var y :| y in AfterDateChecks(t, names) && Agree(x, y, TextDateColumns(t.columns));
      AfterDateChecksSound(t, names);
      AgreeOutside(x, y, TextDateColumns(t.columns), c);
      assert c in dateCols;
      var k :| 0 <= k < |dateCols| && dateCols[k] == c;
      assert !Fails(InvalidDate, CellAt(y, dateCols[k]));
    }
  }

  /** Lines 17-18, carried to the result: with at least one account column,
      and no account column among the text-date columns, no two output rows
      share an account key, and each output row stems from the first
      complete input row carrying its key. */
  lemma CleanUniqueAccounts(t: Table, names: seq<string>, parse: string -> ParseOutcome,
                            coerce: Cell -> Option<Timestamp>)
    requires Clean(t, names, parse, coerce).Ok?
    requires |AccountColumns(t.columns, names)| > 0
    requires forall k :: 0 <= k < |AccountColumns(t.columns, names)| ==>
               AccountColumns(t.columns, names)[k] !in TextDateColumns(t.columns)
    ensures var acct := AccountColumns(t.columns, names);
      UniqueKeys(Clean(t, names, parse, coerce).value.rows, acct)
    ensures var acct := AccountColumns(t.columns, names);
      forall x :: x in Clean(t, names, parse, coerce).value.rows ==>
        exists y :: Agree(x, y, TextDateColumns(t.columns)) &&
                    FirstWithKey(DropIncomplete(t.rows), acct, Key(x, acct)) == Some(y)
  {
    var out := Clean(t, names, parse, coerce).value;
    var acct := AccountColumns(t.columns, names);
    var e := TextDateColumns(t.columns);
    var complete := DropIncomplete(t.rows);
    var deduped := KeepFirst(complete, acct);
    var nonNegative := DropFailingIn(deduped, ColumnsOfKind(t.columns, {IntKind, FloatKind}), NegativeValue);
    var after := AfterDateChecks(t, names);
    ResidualDuplicatesNeverFound(complete, acct);
    assert DedupAccounts(complete, acct) == deduped;
    KeepFirstSpec(complete, acct);
    DropFailingInSound(deduped, ColumnsOfKind(t.columns, {IntKind, FloatKind}), NegativeValue);
    DropFailingInSound(nonNegative, ColumnsOfKind(t.columns, {DateTimeKind}), InvalidDate);
    CleanNarrows(t, names, parse, coerce);
    var none: set<nat> := {};
    NarrowsTrans(after, nonNegative, deduped, none, none);
    NarrowsTrans(out.rows, after, deduped, e, none + none);
    assert e + (none + none) == e;
    NarrowsKeepsUniqueKeys(out.rows, deduped, e, acct);
    forall x | x in out.rows
      ensures exists y :: Agree(x, y, e) && FirstWithKey(complete, acct, Key(x, acct)) == Some(y)
    {
      var i :| 0 <= i < |out.rows| && out.rows[i] == x;
      NarrowsFrom(out.rows, deduped, e, i);
      var j :| 0 <= j < |deduped| && Agree(x, deduped[j], e);
      AgreeSameKey(x, deduped[j], e, acct);
      assert deduped[j] in deduped;
    }
  }

  lemma LowerAcNo()
    ensures Lower("ac_no") == "ac_no" && Lower("amt") == "amt"
  {
  }

  lemma AcNoNotDate()
    ensures !IsDateName("ac_no")
  {
    LowerAcNo();
    assert !HasSubstring("ac_no"[1..], "date");
  }

  /** With the names of line 61 no account column is a text-date column:
      the only name that can match, "ac_no", does not contain "date". */
  lemma ExampleAccountsAreNotTextDates(columns: seq<Column>)
    ensures var acct := AccountColumns(columns, ExampleAccountNames);
      forall k :: 0 <= k < |acct| ==> acct[k] !in TextDateColumns(columns)
  {
    var acct := AccountColumns(columns, ExampleAccountNames);
    forall k | 0 <= k < |acct| ensures acct[k] !in TextDateColumns(columns) {
      assert acct[k] in acct;
      var col := columns[acct[k]];
      OnlyAcNoCanMatch(col);
      AcNoNotDate();
    }
  }

  /** `clean_data` as the script at line 62 calls it: whenever an account
      column exists, the result has no two rows with the same account key. */
  lemma ExampleCleanUniqueAccounts(t: Table, parse: string -> ParseOutcome, coerce: Cell -> Option<Timestamp>)
    requires Clean(t, ExampleAccountNames, parse, coerce).Ok?
    requires |AccountColumns(t.columns, ExampleAccountNames)| > 0
    ensures UniqueKeys(Clean(t, ExampleAccountNames, parse, coerce).value.rows,
                       AccountColumns(t.columns, ExampleAccountNames))
  {
    ExampleAccountsAreNotTextDates(t.columns);
    CleanUniqueAccounts(t, ExampleAccountNames, parse, coerce);
  }
}
