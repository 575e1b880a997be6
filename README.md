# clean_data, modelled in Dafny

`clean_data(data, acct_col_names)` in clean_data_func.py cleans a pandas
DataFrame read from a spreadsheet. It works on a copy of the frame and
narrows that copy in place, step by step:

1. it drops every row with a missing cell (`dropna`);
2. it finds the account-number columns, whose lowercased name is in `acct_col_names`;
3. it drops later rows that repeat an account key (`drop_duplicates`). A
   second pass would drop every row of a key that still occurs twice;
4. it drops rows holding a negative number in any int or float column;
5. it drops rows holding a missing timestamp, or one before 1900-01-01, in
   any datetime column;
6. for every text (object) column whose lowercased name contains "date", it
   parses the column with `dateutil.parser.parse`. If that raises
   `ValueError`, it instead drops the rows whose value `pd.to_datetime(...,
   errors="coerce")` cannot convert;
7. it relabels the rows 0..n-1 (`reset_index`).

The project has five modules:

- `Table` (table.dfy) holds the values: columns with their storage kind,
  cells, rows carrying their index label, and tables. It also defines
  `Narrows(a, b, except)`, the relation "`a` is `b` with rows left out,
  order kept, labels changed, and cells of the columns `except` replaced
  by timestamps".
- `DataFrame` (dataframe.dfy) gives the meaning of the pandas operations
  the function calls, as functions on rows: mask selection, `dropna`,
  `drop_duplicates` with `keep="first"` and `keep=False`, `value_counts`,
  `drop(index=...)`, column assignment and `reset_index`. The class
  `Frame` is the mutable DataFrame. Its in-place methods change its
  `columns` and `rows` fields and are proved to compute those functions.
- `CleanDataFunc` (clean_data.dfy) models the function itself:
  - the steps are functions on values, and `Clean` composes them;
  - `CleanData` is the imperative function, with its loops, on a fresh
    `Frame`;
  - `CleanData` is proved to leave its argument alone and to return
    exactly what `Clean` describes, or the exception that escapes.
- `CleanDataProperties` (properties.dfy) proves what the result
  guarantees.
- `CleanDataScenarios` (scenarios.dfy) works three small tables through
  `Clean`.

The steps of `Clean`, as functions on values (clean_data.dfy), and the
lemmas that say what each computes:

| step | lines | specified by |
|---|---|---|
| `DedupAccounts` | 17-26 | `ResidualDuplicatesNeverFound`, `DedupNarrows`, `KeepFirstSpec` |
| `DropFailingIn` | 29-42 | `DropFailingInSound`, `DropFailingInIsOneFilter` |
| `ParseDateColumn` | 45-52 | `ParseDateColumnAllParsed`, `ParseDateColumnFallback`, `ParseDateColumnRaises`, `ParseDateColumnNarrows` |
| `ParseTextDates` | 44-52 | `ParseTextDatesNarrows`, `ParseTextDatesStopsAtError` |
| `AfterDateChecks` | 8-42 | `AfterDateChecksSound` |
| `Clean` | 4-57 | `CleanNarrows`, `CleanKeepsOrder`, `CleanRenumbers`, `CleanNoMissing`, `CleanNoNegative`, `CleanDatesFrom1900`, `CleanUniqueAccounts`, and `CleanData`, which computes it |

`dateutil.parser.parse` and `pd.to_datetime(..., errors="coerce")` are
parameters of the model: `parse: string -> ParseOutcome` and
`coerce: Cell -> Option<Timestamp>`.

### Behaviour of the code worth knowing

Each of these is proved.

- Line 18 already keeps only the first row of each account key. The
  residual-duplicate check of lines 21-26 therefore never finds anything,
  and `keep=False` never runs (`ResidualDuplicatesNeverFound`). Two rows
  with the same account and different amounts leave the first row, not
  neither (`SameAccountKeepsFirst`).
- With the names listed at line 61, only a column whose lowercased name is
  "ac_no" can be an account column. The other entries contain upper-case
  letters, and a lowercased name never does (`OnlyAcNoCanMatch`).
- Only columns that were datetime columns before line 44 are checked
  against 1900-01-01. A text date parsed at line 47 is kept whatever its
  year. Cleaning the output a second time then drops that row, so
  cleaning is not idempotent (`OldTextDateKept`,
  `OldDateDroppedOnSecondClean`, `CleanNotIdempotent`).
- `Series.apply` at line 47 stops at the first value that fails to
  parse, and that value alone decides what happens next
  (`ApplyParseRaisesFirst`):
  - if it raises `ValueError`, the whole column falls back. Rows that
    coercion rejects go. The others keep their text; they are not parsed
    timestamps (`ParseDateColumnFallback`, `FallbackKeepsText`);
  - if it raises anything else, as `dateutil` does for a non-string
    value, the exception escapes `clean_data`
    (`ParseDateColumnRaises`). A non-string value after the first
    unparsable one never reaches `dateutil`.

## Model

| member | source | states |
|---|---|---|
| Table.LowerChar | clean_data_func.py:13 | `str.lower` on a character: the result is never an upper-case letter; an upper-case letter moves 32 code points up to its lower-case form; any other character is unchanged |
| Table.Lower | clean_data_func.py:13 | `col.lower()`: same length as the name, every character lowercased as `LowerChar` says |
| Table.ColumnsOfKind | clean_data_func.py:29 | `select_dtypes(include=...).columns`: strictly increasing positions, and a position is present exactly when its column's kind is one of the requested kinds |
| DataFrame.Select | clean_data_func.py:34 | `df.loc[mask]`: no longer than the input; every row kept is an input row whose mask entry is true, and every such row is kept |
| DataFrame.SelectNarrows | clean_data_func.py:34 | a mask selection keeps the selected rows in their original relative order |
| DataFrame.DropIncomplete | clean_data_func.py:8 | `dropna()`: a row survives exactly when it is an input row with no missing cell |
| DataFrame.KeepFirstSpec | clean_data_func.py:18 | `drop_duplicates(subset=keys)`: no two survivors share a key, every input key survives, and each survivor is the first input row with its key |
| DataFrame.OccurrencesAtMostOnce | clean_data_func.py:21 | on rows with distinct keys, `value_counts` counts every key at most once |
| DataFrame.UniqueKeysHaveNoDuplicates | clean_data_func.py:21-26 | on rows with distinct keys, `acct_counts > 1` selects no key, and `drop_duplicates(keep=False)` changes nothing |
| DataFrame.NarrowsKeepsUniqueKeys | clean_data_func.py:18-52 | leaving rows out and rewriting cells outside the key columns cannot create a repeated key |
| DataFrame.DropLabels | clean_data_func.py:34 | `drop(index=labels)`: a row survives exactly when it is an input row whose label is not among the dropped labels |
| DataFrame.DropFlaggedExact | clean_data_func.py:34 | when labels are distinct, dropping the labels of the flagged rows is the same as keeping exactly the unflagged rows |
| DataFrame.SetColumn | clean_data_func.py:47 | column assignment: same rows, labels and widths; the cell in the assigned column is the new value, every other cell unchanged |
| DataFrame.Renumber | clean_data_func.py:55 | `reset_index(drop=True)`: same number of rows, the i-th labelled i with its cells unchanged |
| DataFrame.SetColumnNarrows | clean_data_func.py:47 | assigning timestamps to column c changes nothing but cells of column c |
| DataFrame.Frame.Copy | clean_data_func.py:5 | `data.copy()`: a new frame with the same columns and rows |
| DataFrame.Frame.DropNa | clean_data_func.py:8 | in place: the rows become `DropIncomplete` of the old rows, the columns stay |
| DataFrame.Frame.DropDuplicates | clean_data_func.py:18 | in place: the rows become the first-per-key rows (`keep="first"`) or the rows of keys occurring once (`keep=False`), the columns stay |
| DataFrame.Frame.Drop | clean_data_func.py:34 | in place: the rows become `DropLabels` of the old rows, the columns stay |
| DataFrame.Frame.Assign | clean_data_func.py:47 | in place: the column gets the new values and the given kind, nothing else changes |
| DataFrame.Frame.ResetIndex | clean_data_func.py:55 | in place: the rows are renumbered, the columns stay |
| CleanDataFunc.AccountColumns | clean_data_func.py:11-14 | the account columns: strictly increasing positions, and a column is included exactly when its lowercased name is in `acct_col_names` |
| CleanDataFunc.FindAccountColumns | clean_data_func.py:11-14 | the appending loop returns exactly `AccountColumns` |
| CleanDataFunc.OnlyAcNoCanMatch | clean_data_func.py:61 | with the names listed at line 61, a column is an account column only when its lowercased name is "ac_no" |
| CleanDataFunc.ResidualDuplicatesNeverFound | clean_data_func.py:17-26 | after line 18 no key is counted more than once, so `duplicates` is empty and `DedupAccounts`, lines 17-26 as written, equals line 18 alone |
| CleanDataFunc.DropFailingSound | clean_data_func.py:30-34 | one iteration of the negative-value or invalid-date loop keeps only input rows passing the check in its column, in order |
| CleanDataFunc.DropFailingInSound | clean_data_func.py:29-42 | after a whole loop (`DropFailingIn`) every survivor is an input row passing the check in every column of the loop, in the original order |
| CleanDataFunc.DropFailingExact | clean_data_func.py:30-34 | when labels are distinct, one iteration removes exactly the rows failing in its column |
| CleanDataFunc.PassesAllSnoc | clean_data_func.py:29 | passing the check in the columns so far plus one more is passing in the old columns and in the new one |
| CleanDataFunc.DropFailingInIsOneFilter | clean_data_func.py:29-34 | when labels are distinct, dropping column by column keeps the same rows as one filter on "passes in every column" |
| CleanDataFunc.ApplyParse | clean_data_func.py:47 | `Series.apply(parse)` succeeds exactly when every value parses, and then yields one timestamp per row, the parse of that row's value |
| CleanDataFunc.ApplyParseRaisesFirst | clean_data_func.py:47-48 | the first value that fails to parse decides whether the apply raises `ValueError` or another exception |
| CleanDataFunc.ParseTextDatesStopsAtError | clean_data_func.py:44-52 | an exception escaping for one column is the outcome of the whole loop |
| CleanDataFunc.DropDuplicateAccounts | clean_data_func.py:17-26 | in place: the rows become the deduplicated rows, the columns stay |
| CleanDataFunc.DropFailingRows | clean_data_func.py:29-42 | in place: the loop leaves exactly the rows the column-by-column drop describes, the columns stay |
| CleanDataFunc.ParseDateColumns | clean_data_func.py:44-52 | in place: the loop over object columns leaves the frame `ParseTextDates` describes, or reports the exception that escapes |
| CleanDataFunc.CleanData | clean_data_func.py:4-57 | the caller's frame is unchanged; the result is a fresh frame equal to `Clean` of the input, or the exception `Clean` says escapes |
| CleanDataProperties.ParseDateColumnAllParsed | clean_data_func.py:45-47 | if every value of a text-date column parses, the column holds the parsed timestamps, becomes a datetime column, and no row is removed or relabelled |
| CleanDataProperties.ParseDateColumnFallback | clean_data_func.py:48-52 | if the first unparsable value raises `ValueError`, the columns stay as they were, the rows keep their order, and only rows whose value can be coerced survive; with distinct labels, exactly those survive |
| CleanDataProperties.ParseDateColumnRaises | clean_data_func.py:46-48 | if the first unparsable value raises anything else, the exception escapes, naming the column |
| CleanDataProperties.ParseDateColumnNarrows | clean_data_func.py:45-52 | one column of the loop keeps column names, changes at most that column's kind and only to datetime, and only narrows the rows, rewriting cells of that column alone |
| CleanDataProperties.ParseTextDatesNarrows | clean_data_func.py:44-52 | the loop keeps column names, changes a column's kind only to datetime and only for date-named columns, and only narrows the rows, rewriting no cells outside those columns |
| CleanDataProperties.DedupNarrows | clean_data_func.py:17-26 | deduplication (`DedupAccounts`) only leaves rows out, keeping the order |
| CleanDataProperties.AfterDateChecksSound | clean_data_func.py:8-42 | after line 42 the rows are complete input rows in order, with no negative number in a numeric column and no missing or pre-1900 value in a datetime column |
| CleanDataProperties.CleanNarrows | clean_data_func.py:44-55 | the result keeps the input's column names; only text-date columns may change kind, and only to datetime; its rows narrow the rows left after line 42, rewriting cells of text-date columns only |
| CleanDataProperties.CleanKeepsOrder | clean_data_func.py:5-55 | every output row is an input row, up to its label and its text-date cells, with relative order kept; the output is no longer than the input |
| CleanDataProperties.CleanRenumbers | clean_data_func.py:55 | the result's rows are labelled 0, 1, ..., n-1 |
| CleanDataProperties.CleanNoMissing | clean_data_func.py:8 | no output row has a missing cell; when every input row has one cell per column, so does every output row, and no output row is missing any column |
| CleanDataProperties.CleanNoNegative | clean_data_func.py:29-34 | no output row holds a negative number in a column that was int or float (zero stays) |
| CleanDataProperties.CleanDatesFrom1900 | clean_data_func.py:37-42 | in a column that was datetime, every output row holds a timestamp no earlier than 1900-01-01 |
| CleanDataProperties.CleanUniqueAccounts | clean_data_func.py:17-18 | with an account column that is not a text-date column, no two output rows share an account key, and each comes from the first complete input row carrying its key |
| CleanDataProperties.ExampleAccountsAreNotTextDates | clean_data_func.py:61 | with the names listed at line 61, no account column is a text-date column |
| CleanDataProperties.ExampleCleanUniqueAccounts | clean_data_func.py:61-62 | called as the script calls it, whenever an account column exists the result has unique account keys |
| CleanDataScenarios.SameAccountKeepsFirst | clean_data_func.py:17-26 | two rows with account "A1" and amounts 10 and 20: the result keeps the first of them and the row with amount 0 |
| CleanDataScenarios.OldTextDateKept | clean_data_func.py:37-47 | a text date in 1850 is parsed at line 47 and kept, in a column that is now a datetime column |
| CleanDataScenarios.OldDateDroppedOnSecondClean | clean_data_func.py:37-42 | cleaning that result again drops the row, since the column is now checked against 1900-01-01 |
| CleanDataScenarios.CleanNotIdempotent | clean_data_func.py:37-47 | some table's cleaned result changes when cleaned again |
| CleanDataScenarios.FallbackKeepsText | clean_data_func.py:48-52 | a text-date column holding "N/A" loses that row, and the other row keeps its text |

## Left out

- The script at lines 59-64 is not modelled: reading the spreadsheet, writing the CSV and printing the head.
- The warnings printed at lines 24-25, 32-33, 40-41, 49 and 51 are not modelled. They change no data.
- `dateutil.parser.parse` and `pd.to_datetime(..., errors="coerce")` are parameters, so their parsing rules are not modelled.
- The parser is a plain function, so it always returns the same result for the same string.
- Column kinds are given, not inferred by pandas. After a column parses at line 47 it is taken to become a datetime column.
- `str.lower` is modelled for ASCII letters only. Other Unicode case mappings are not modelled.
- Numbers are exact reals, so float rounding and integer width are not modelled. NaN, None and NaT are all the one `Missing` cell, which line 8 removes.
- Timestamps carry a date and a time-of-day count; time zones are not modelled. The comparison with the string "1900-01-01" at line 38 is modelled as a comparison with midnight at the start of 1900-01-01.
- Columns are addressed by position. A frame with two columns of the same name, where `df[col]` at lines 30, 38 and 47 would select both, is not modelled.
- Exceptions other than those from line 47 are not modelled, for example `col.lower()` at lines 13 and 45 raising `AttributeError` on a column name that is not a string.
- `coerce` decides each value on its own. From pandas 2.0, `pd.to_datetime` on a Series infers one format from its first non-missing value, so whether a value coerces can depend on the other values of its column; that is not modelled.
- `drop(index=...)` is modelled by label, as pandas does it. With repeated labels it can remove more rows than the mask flags.
- ParseDateColumnFallback: states "exactly the uncoercible rows go" only for distinct labels, which the input has whenever it comes from `read_excel`. Without that it states only that every survivor can be coerced.
- DropFailingExact: states "exactly the failing rows go" only for distinct labels, for the same reason.
- DropFailingInIsOneFilter: states "exactly the failing rows go" only for distinct labels, for the same reason.
- CleanUniqueAccounts: requires that no account column is also a text-date column. Line 47 can replace such a column's cells, and so change its keys. With the names of line 61 this always holds (`ExampleAccountsAreNotTextDates`).
- `Frame.Copy` makes an independent frame. Whether pandas shares the underlying buffers is not modelled.
