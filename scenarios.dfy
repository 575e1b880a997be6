/** Concrete tables worked through `Clean`, showing what the code does in
    cases where a reader might expect otherwise. */
module CleanDataScenarios {
  import opened Table
  import opened DataFrame
  import opened CleanDataFunc
  import opened CleanDataProperties

  const Jan1850 := Timestamp(1850, 1, 1, 0)
  const Jan2020 := Timestamp(2020, 1, 5, 0)

  /** A parser that understands the strings "1850-01-01" and "2020-01-05"
      and raises `ValueError` on anything else; coercion fails on "N/A" only. */
  function ParseKnown(s: string): ParseOutcome {
    if s == "1850-01-01" then Parsed(Jan1850)
    else if s == "2020-01-05" then Parsed(Jan2020)
    else ValueError
  }

  function CoerceAllButNA(x: Cell): Option<Timestamp> {
    if x == Str("N/A") then None else Some(Jan2020)
  }

  const AccountTable := Table(
    [Column("ac_no", ObjectKind), Column("amt", IntKind)],
    [Row(0, [Str("A1"), Num(10.0)]), Row(1, [Str("A1"), Num(20.0)]), Row(2, [Str("B2"), Num(0.0)])])

  const Kept := [Row(0, [Str("A1"), Num(10.0)]), Row(2, [Str("B2"), Num(0.0)])]

  lemma AccountTableAccounts()
    ensures AccountColumns(AccountTable.columns, ExampleAccountNames) == [0]
  {
    LowerAcNo();
    var columns := AccountTable.columns;
    assert IsAccountColumn(columns[0], ExampleAccountNames);
    assert !IsAccountColumn(columns[1], ExampleAccountNames);
    assert columns[..1] == [columns[0]];
    assert columns[..1][..0] == [];
  }

  lemma AccountTableKinds(kinds: set<Kind>)
    ensures ColumnsOfKind(AccountTable.columns, kinds)
         == (if ObjectKind in kinds then [0] else []) + (if IntKind in kinds then [1] else [])
  {
    var columns := AccountTable.columns;
    var first := columns[..1];
    assert first == [columns[0]];
    assert first[..0] == [];
    assert ColumnsOfKind(first[..0], kinds) == [];
    assert ColumnsOfKind(first, kinds) == if ObjectKind in kinds then [0] else [];
  }

  /** `Select` on three rows, spelled out. */
  lemma SelectThree(rows: seq<Row>, keep: seq<bool>)
    requires |rows| == |keep| == 3
    ensures Select(rows, keep)
         == (if keep[0] then [rows[0]] else []) + (if keep[1] then [rows[1]] else [])
          + (if keep[2] then [rows[2]] else [])
  {
    assert rows[..2][..1][..0] == [];
    assert rows[..2][..1] == [rows[0]];
    assert keep[..2][..1] == [keep[0]];
    assert Select(rows[..2][..1], keep[..2][..1]) == if keep[0] then [rows[0]] else [];
  }

  lemma AccountTableComplete()
    ensures DropIncomplete(AccountTable.rows) == AccountTable.rows
  {
    var rows := AccountTable.rows;
    assert MaskOf(rows, Complete) == [true, true, true];
    SelectAll(rows, MaskOf(rows, Complete));
  }

  lemma AccountTableFirstMask()
    ensures FirstMask(AccountTable.rows, [0]) == [true, false, true]
  {
    var rows := AccountTable.rows;
    var acct := [0];
    assert Key(rows[0], acct) == [Str("A1")] == Key(rows[1], acct);
    assert Key(rows[2], acct) == [Str("B2")];
    assert rows[..0] == [];
    assert Key(rows[1], acct) in KeysOf(rows[..1], acct) by { assert rows[0] in rows[..1]; }
    assert Key(rows[2], acct) !in KeysOf(rows[..2], acct) by {
      forall y | y in rows[..2] ensures Key(y, acct) != Key(rows[2], acct) {
        assert Key(y, acct)[0] == Str("A1");
      }
    }
  }

  lemma AccountTableDedup()
    ensures DedupAccounts(DropIncomplete(AccountTable.rows), [0]) == Kept
  {
    var rows := AccountTable.rows;
    AccountTableComplete();
    AccountTableFirstMask();
    SelectThree(rows, FirstMask(rows, [0]));
    ResidualDuplicatesNeverFound(rows, [0]);
  }

  lemma KeptNonNegative()
    ensures DropFailingIn(Kept, [1], NegativeValue) == Kept
  {
    var bad := FailMask(Kept, 1, NegativeValue);
    assert bad == [false, false];
    assert [1][..0] == [];
    assert DropFailingIn(Kept, [], NegativeValue) == Kept;
  }

  lemma AccountTableChecked()
    ensures AfterDateChecks(AccountTable, ExampleAccountNames) == Kept
  {
    var t := AccountTable;
    AccountTableAccounts();
    AccountTableKinds({IntKind, FloatKind});
    AccountTableKinds({DateTimeKind});
    AccountTableDedup();
    KeptNonNegative();
    var complete := DropIncomplete(t.rows);
    var deduped := DedupAccounts(complete, AccountColumns(t.columns, ExampleAccountNames));
    assert deduped == Kept;
    var nonNegative := DropFailingIn(deduped, ColumnsOfKind(t.columns, {IntKind, FloatKind}), NegativeValue);
    assert nonNegative == Kept;
    assert DropFailingIn(nonNegative, ColumnsOfKind(t.columns, {DateTimeKind}), InvalidDate) == Kept;
  }

  lemma KeptNotParsed()
    ensures ParseTextDates(Table(AccountTable.columns, Kept), [0], ParseKnown, CoerceAllButNA)
         == Ok(Table(AccountTable.columns, Kept))
  {
    AcNoNotDate();
    assert [0][..0] == [];
    assert ParseDateColumn(Table(AccountTable.columns, Kept), 0, ParseKnown, CoerceAllButNA)
        == Ok(Table(AccountTable.columns, Kept));
  }

  /** `Clean` from its two halves: the rows left after line 42 and the
      outcome of the loop of line 44. */
  lemma CleanFromSteps(t: Table, names: seq<string>, parse: string -> ParseOutcome,
                       coerce: Cell -> Option<Timestamp>, checked: seq<Row>, parsed: Table)
    requires AfterDateChecks(t, names) == checked
    requires ParseTextDates(Table(t.columns, checked), ColumnsOfKind(t.columns, {ObjectKind}), parse, coerce) == Ok(parsed)
    ensures Clean(t, names, parse, coerce) == Ok(Table(parsed.columns, Renumber(parsed.rows)))
  {
  }

  lemma RenumberKept()
    ensures Renumber(Kept) == [Row(0, [Str("A1"), Num(10.0)]), Row(1, [Str("B2"), Num(0.0)])]
  {
  }

  /** Two rows share account "A1" with different amounts: line 18 keeps
      the first of them, and the residual-duplicate pass of lines 21-26
      removes nothing. The row with amount zero stays. */
  lemma SameAccountKeepsFirst()
    ensures Clean(AccountTable, ExampleAccountNames, ParseKnown, CoerceAllButNA)
         == Ok(Table(AccountTable.columns, [Row(0, [Str("A1"), Num(10.0)]), Row(1, [Str("B2"), Num(0.0)])]))
  {
    AccountTableChecked();
    AccountTableKinds({ObjectKind});
    KeptNotParsed();
    CleanFromSteps(AccountTable, ExampleAccountNames, ParseKnown, CoerceAllButNA, Kept, Table(AccountTable.columns, Kept));
    RenumberKept();
  }

  // ----- a text date before 1900, and cleaning twice -----

  const OldDateTable := Table([Column("date", ObjectKind)], [Row(0, [Str("1850-01-01")])])

  const ParsedOldDate := Table([Column("date", DateTimeKind)], [Row(0, [Stamp(Jan1850)])])

  lemma OneColumnKinds(name: string, kind: Kind, kinds: set<Kind>)
    ensures ColumnsOfKind([Column(name, kind)], kinds) == if kind in kinds then [0] else []
  {
    assert [Column(name, kind)][..0] == [];
  }

  lemma DateIsDateName()
    ensures IsDateName("date") && Lower("date") !in ExampleAccountNames
  {
    assert Lower("date") == "date";
    assert "date"[..4] == "date";
  }

  lemma HeadIsMember(s: seq<nat>)
    ensures |s| > 0 ==> s[0] in s
  {
  }

  lemma NoMembers(s: seq<nat>)
    requires forall c: nat :: c !in s
    ensures s == []
  {
    HeadIsMember(s);
  }

  lemma AllComplete(rows: seq<Row>)
    requires forall x :: x in rows ==> Complete(x)
    ensures DropIncomplete(rows) == rows
  {
    SelectAll(rows, MaskOf(rows, Complete));
  }

  /** `AfterDateChecks` from its steps. */
  lemma AfterDateChecksFromSteps(t: Table, names: seq<string>, acct: seq<nat>, numericCols: seq<nat>,
                                 dateCols: seq<nat>, deduped: seq<Row>, nonNegative: seq<Row>, result: seq<Row>)
    requires AccountColumns(t.columns, names) == acct
    requires ColumnsOfKind(t.columns, {IntKind, FloatKind}) == numericCols
    requires ColumnsOfKind(t.columns, {DateTimeKind}) == dateCols
    requires DedupAccounts(DropIncomplete(t.rows), acct) == deduped
    requires DropFailingIn(deduped, numericCols, NegativeValue) == nonNegative
    requires DropFailingIn(nonNegative, dateCols, InvalidDate) == result
    ensures AfterDateChecks(t, names) == result
  {
  }

  /** With no account column, no numeric column and no datetime column,
      lines 8-42 leave complete rows as they are. */
  lemma NothingToCheck(t: Table)
    requires forall c :: 0 <= c < |t.columns| ==>
               t.columns[c].kind !in {IntKind, FloatKind, DateTimeKind} &&
               Lower(t.columns[c].name) !in ExampleAccountNames
    requires forall x :: x in t.rows ==> Complete(x)
    ensures AfterDateChecks(t, ExampleAccountNames) == t.rows
  {
    AllComplete(t.rows);
    NoMembers(ColumnsOfKind(t.columns, {IntKind, FloatKind}));
    NoMembers(ColumnsOfKind(t.columns, {DateTimeKind}));
    NoMembers(AccountColumns(t.columns, ExampleAccountNames));
    AfterDateChecksFromSteps(t, ExampleAccountNames, [], [], [], t.rows, t.rows, t.rows);
  }

  lemma OldDateParsed()
    ensures ParseTextDates(OldDateTable, [0], ParseKnown, CoerceAllButNA) == Ok(ParsedOldDate)
  {
    DateIsDateName();
    var rows := OldDateTable.rows;
    assert ParseCell(ParseKnown, CellAt(rows[0], 0)) == Parsed(Jan1850);
    assert ApplyParse(rows, 0, ParseKnown) == AllParsed([Stamp(Jan1850)]);
    var r := SetColumn(rows, 0, [Stamp(Jan1850)]);
    assert |r| == 1 && r[0].index == 0 && |r[0].cells| == 1 && r[0].cells[0] == Stamp(Jan1850);
    assert r[0] == Row(0, [Stamp(Jan1850)]);
    assert r == ParsedOldDate.rows;
    var columns := OldDateTable.columns;
    assert columns[0 := Column(columns[0].name, DateTimeKind)] == ParsedOldDate.columns;
    assert ParseDateColumn(OldDateTable, 0, ParseKnown, CoerceAllButNA) == Ok(ParsedOldDate);
    assert [0][..0] == [];
  }

  lemma OldDateFails()
    ensures DropFailingIn(ParsedOldDate.rows, [0], InvalidDate) == []
  {
    var rows := ParsedOldDate.rows;
    var bad := FailMask(rows, 0, InvalidDate);
    assert bad == [true];
    assert Any(bad);
    assert LabelsWhere(rows, bad) == {0};
    assert LabelMask(rows, {0}) == [false];
    assert rows[..0] == [];
    assert DropLabels(rows, {0}) == [];
    assert [0][..0] == [];
    assert DropFailingIn(rows, [], InvalidDate) == rows;
  }

  lemma OldDateNoAccounts()
    ensures AccountColumns(ParsedOldDate.columns, ExampleAccountNames) == []
  {
    DateIsDateName();
    assert ParsedOldDate.columns[..0] == [];
  }

  lemma OldDateDropped()
    ensures AfterDateChecks(ParsedOldDate, ExampleAccountNames) == []
  {
    var t := ParsedOldDate;
    OldDateNoAccounts();
    OneColumnKinds("date", DateTimeKind, {IntKind, FloatKind});
    OneColumnKinds("date", DateTimeKind, {DateTimeKind});
    AllComplete(t.rows);
    OldDateFails();
    AfterDateChecksFromSteps(t, ExampleAccountNames, [], [], [0], t.rows, t.rows, []);
  }

  /** A text date before 1900 is parsed at line 47 and kept: only columns
      that were datetime columns to begin with are checked against
      1900-01-01. */
  lemma OldTextDateKept()
    ensures Clean(OldDateTable, ExampleAccountNames, ParseKnown, CoerceAllButNA) == Ok(ParsedOldDate)
  {
    DateIsDateName();
    OneColumnKinds("date", ObjectKind, {ObjectKind});
    NothingToCheck(OldDateTable);
    OldDateParsed();
    CleanFromSteps(OldDateTable, ExampleAccountNames, ParseKnown, CoerceAllButNA, OldDateTable.rows, ParsedOldDate);
    assert Renumber(ParsedOldDate.rows) == ParsedOldDate.rows;
  }

  /** Cleaning the table `OldTextDateKept` returns drops its row: it is now
      a datetime column holding a timestamp before 1900. */
  lemma OldDateDroppedOnSecondClean()
    ensures Clean(ParsedOldDate, ExampleAccountNames, ParseKnown, CoerceAllButNA)
         == Ok(Table(ParsedOldDate.columns, []))
  {
    OldDateDropped();
    OneColumnKinds("date", DateTimeKind, {ObjectKind});
    assert ParseTextDates(Table(ParsedOldDate.columns, []), [], ParseKnown, CoerceAllButNA)
        == Ok(Table(ParsedOldDate.columns, []));
    CleanFromSteps(ParsedOldDate, ExampleAccountNames, ParseKnown, CoerceAllButNA, [], Table(ParsedOldDate.columns, []));
  }

  /** Cleaning is not idempotent: cleaning the result of a clean can remove
      more rows. */
  lemma CleanNotIdempotent()
    ensures exists t: Table, out: Table ::
      Clean(t, ExampleAccountNames, ParseKnown, CoerceAllButNA) == Ok(out) &&
      Clean(out, ExampleAccountNames, ParseKnown, CoerceAllButNA) != Ok(out)
  {
    OldTextDateKept();
    OldDateDroppedOnSecondClean();
    assert Clean(ParsedOldDate, ExampleAccountNames, ParseKnown, CoerceAllButNA) != Ok(ParsedOldDate);
  }

  // ----- the fallback of lines 48-52 -----

  const NaDateTable := Table([Column("date", ObjectKind)], [Row(0, [Str("2020-01-05")]), Row(1, [Str("N/A")])])

  lemma NaDateFallback()
    ensures ParseTextDates(NaDateTable, [0], ParseKnown, CoerceAllButNA)
         == Ok(Table(NaDateTable.columns, [Row(0, [Str("2020-01-05")])]))
  {
    DateIsDateName();
    var t := NaDateTable;
    assert ParsesAt(ParseKnown, t.rows[0], 0);
    assert ParseCell(ParseKnown, CellAt(t.rows[1], 0)) == ValueError;
    ApplyParseRaisesFirst(t.rows, 0, ParseKnown, 1);
    var bad := CoerceFailMask(t.rows, 0, CoerceAllButNA);
    assert bad == [false, true];
    assert LabelsWhere(t.rows, bad) == {1};
    var kept := DropLabels(t.rows, {1});
    assert LabelMask(t.rows, {1}) == [true, false];
    assert t.rows[..1][..0] == [];
    assert kept == [Row(0, [Str("2020-01-05")])];
    assert [0][..0] == [];
  }

  lemma NaDateChecked()
    ensures AfterDateChecks(NaDateTable, ExampleAccountNames) == NaDateTable.rows
  {
    DateIsDateName();
    var rows := NaDateTable.rows;
    assert Complete(rows[0]) && Complete(rows[1]);
    assert forall x :: x in rows ==> x == rows[0] || x == rows[1];
    NothingToCheck(NaDateTable);
  }

  /** One value ("N/A") does not parse, so the whole column falls back to
      coercion: the row holding "N/A" goes, and the other row keeps its
      text, not a parsed timestamp; the column stays a text column. */
  lemma FallbackKeepsText()
    ensures Clean(NaDateTable, ExampleAccountNames, ParseKnown, CoerceAllButNA)
         == Ok(Table([Column("date", ObjectKind)], [Row(0, [Str("2020-01-05")])]))
  {
    OneColumnKinds("date", ObjectKind, {ObjectKind});
    NaDateChecked();
    NaDateFallback();
    var parsed := Table(NaDateTable.columns, [Row(0, [Str("2020-01-05")])]);
    CleanFromSteps(NaDateTable, ExampleAccountNames, ParseKnown, CoerceAllButNA, NaDateTable.rows, parsed);
    assert Renumber(parsed.rows) == parsed.rows;
  }
}
