/** The pandas DataFrame operations the cleaning script calls, with their
    meaning on rows: boolean masks, row selection, `dropna`,
    `drop_duplicates`, `value_counts`, `drop(index=...)`, column assignment
    and `reset_index`. The class `Frame` is the mutable DataFrame whose
    in-place methods (`inplace=True`) change its rows and columns. */
module DataFrame {
  import opened Table

  /** The rows whose mask entry is true, in their order (`df.loc[mask]`). */
  function Select(rows: seq<Row>, keep: seq<bool>): (r: seq<Row>)
    requires |keep| == |rows|
    ensures |r| <= |rows|
    ensures forall x :: x in r ==> exists i :: 0 <= i < |rows| && rows[i] == x && keep[i]
    ensures forall i :: 0 <= i < |rows| && keep[i] ==> rows[i] in r
  {
    if rows == [] then []
    else
      var n := |rows| - 1;
      Select(rows[..n], keep[..n]) + (if keep[n] then [rows[n]] else [])
  }

  lemma SelectSnoc(rows: seq<Row>, keep: seq<bool>, x: Row, b: bool)
    requires |keep| == |rows|
    ensures Select(rows + [x], keep + [b]) == Select(rows, keep) + (if b then [x] else [])
  {
    assert (rows + [x])[..|rows|] == rows;
    assert (keep + [b])[..|rows|] == keep;
  }

  lemma {:induction false} SelectNarrows(rows: seq<Row>, keep: seq<bool>)
    requires |keep| == |rows|
    ensures Narrows(Select(rows, keep), rows, {})
  {
    if rows != [] {
      var n := |rows| - 1;
      SelectNarrows(rows[..n], keep[..n]);
      NarrowsSnoc(Select(rows[..n], keep[..n]), rows[..n], rows[n], rows[n], keep[n], {});
      assert rows[..n] + [rows[n]] == rows;
    }
  }

  /** A mask that keeps everything selects every row. */
  lemma {:induction false} SelectAll(rows: seq<Row>, keep: seq<bool>)
    requires |keep| == |rows|
    requires forall i :: 0 <= i < |keep| ==> keep[i]
    ensures Select(rows, keep) == rows
  {
    if rows != [] {
      var n := |rows| - 1;
      SelectAll(rows[..n], keep[..n]);
      assert rows[..n] + [rows[n]] == rows;
    }
  }

  lemma {:induction false} SelectKeepsDistinctLabels(rows: seq<Row>, keep: seq<bool>)
    requires |keep| == |rows| && DistinctLabels(rows)
    ensures DistinctLabels(Select(rows, keep))
  {
    if rows != [] {
      var n := |rows| - 1;
      var p := Select(rows[..n], keep[..n]);
      SelectKeepsDistinctLabels(rows[..n], keep[..n]);
      if keep[n] {
        var r := p + [rows[n]];
        forall i, j | 0 <= i < j < |r| ensures r[i].index != r[j].index {
          if j == |p| {
            assert p[i] in p;
            var k :| 0 <= k < n && rows[..n][k] == p[i] && keep[..n][k];
            assert rows[k] == r[i];
          }
        }
      }
    }
  }

  /** The mask of a row predicate (`df.apply(p, axis=1)`). */
  function MaskOf(rows: seq<Row>, p: Row -> bool): (m: seq<bool>)
    ensures |m| == |rows|
    ensures forall i :: 0 <= i < |rows| ==> m[i] == p(rows[i])
  {
    seq(|rows|, i requires 0 <= i < |rows| => p(rows[i]))
  }

  function Not(m: seq<bool>): (r: seq<bool>)
    ensures |r| == |m|
    ensures forall i :: 0 <= i < |m| ==> r[i] == !m[i]
  {
    seq(|m|, i requires 0 <= i < |m| => !m[i])
  }

  /** `mask.any()`. */
  predicate Any(m: seq<bool>) {
    true in m
  }

  /** The rows both `keep` and the row predicate `p` keep. */
  function KeepAnd(rows: seq<Row>, keep: seq<bool>, p: Row -> bool): (m: seq<bool>)
    requires |keep| == |rows|
    ensures |m| == |rows|
    ensures forall i :: 0 <= i < |rows| ==> m[i] == (keep[i] && p(rows[i]))
  {
    seq(|rows|, i requires 0 <= i < |rows| => keep[i] && p(rows[i]))
  }

  lemma MaskOfSnoc(rows: seq<Row>, x: Row, p: Row -> bool)
    ensures MaskOf(rows + [x], p) == MaskOf(rows, p) + [p(x)]
  {
  }

  lemma KeepAndSnoc(rows: seq<Row>, keep: seq<bool>, x: Row, b: bool, p: Row -> bool)
    requires |keep| == |rows|
    ensures KeepAnd(rows + [x], keep + [b], p) == KeepAnd(rows, keep, p) + [b && p(x)]
  {
  }

  /** Filtering the selected rows by a row predicate selects, from the
      original rows, those that both masks keep. */
  lemma {:induction false} SelectThenFilter(rows: seq<Row>, keep: seq<bool>, p: Row -> bool)
    requires |keep| == |rows|
    ensures Select(Select(rows, keep), MaskOf(Select(rows, keep), p)) == Select(rows, KeepAnd(rows, keep, p))
  {
    if rows != [] {
      var n := |rows| - 1;
      var rows', keep', x, b := rows[..n], keep[..n], rows[n], keep[n];
      var s' := Select(rows', keep');
      var t' := Select(s', MaskOf(s', p));
      SelectThenFilter(rows', keep', p);
      assert t' == Select(rows', KeepAnd(rows', keep', p));
      assert rows' + [x] == rows && keep' + [b] == keep;
      KeepAndSnoc(rows', keep', x, b, p);
      SelectSnoc(rows', KeepAnd(rows', keep', p), x, b && p(x));
      assert Select(rows, KeepAnd(rows, keep, p)) == t' + (if b && p(x) then [x] else []);
      SelectSnoc(rows', keep', x, b);
      if b {
        assert Select(rows, keep) == s' + [x];
        MaskOfSnoc(s', x, p);
        SelectSnoc(s', MaskOf(s', p), x, p(x));
      } else {
        assert Select(rows, keep) == s' + [];
        assert s' + [] == s';
        assert t' + [] == t';
      }
    }
  }

  // ----- dropna -----

  /** No cell of the row is missing. */
  predicate Complete(r: Row) {
    forall c :: 0 <= c < |r.cells| ==> !r.cells[c].Missing?
  }

  /** `df.dropna()`: the rows without a missing cell. */
  function DropIncomplete(rows: seq<Row>): (r: seq<Row>)
    ensures forall x :: x in r <==> x in rows && Complete(x)
  {
    Select(rows, MaskOf(rows, Complete))
  }

  // ----- drop_duplicates and value_counts -----

  /** The values of a row in the subset columns `keys`. */
  function Key(r: Row, keys: seq<nat>): seq<Cell> {
    seq(|keys|, i requires 0 <= i < |keys| => CellAt(r, keys[i]))
  }

  function KeysOf(rows: seq<Row>, keys: seq<nat>): set<seq<Cell>> {
    set x | x in rows :: Key(x, keys)
  }

  lemma KeysOfSnoc(rows: seq<Row>, x: Row, keys: seq<nat>)
    ensures KeysOf(rows + [x], keys) == KeysOf(rows, keys) + {Key(x, keys)}
  {
    assert forall y :: y in rows + [x] <==> y in rows || y == x;
  }

  lemma KeysOfCons(x: Row, rows: seq<Row>, keys: seq<nat>)
    ensures KeysOf([x] + rows, keys) == {Key(x, keys)} + KeysOf(rows, keys)
  {
    assert forall y :: y in [x] + rows <==> y == x || y in rows;
  }

  /** No two rows share a key. */
  ghost predicate UniqueKeys(rows: seq<Row>, keys: seq<nat>) {
    forall i, j :: 0 <= i < j < |rows| ==> Key(rows[i], keys) != Key(rows[j], keys)
  }

  /** Marks the rows whose key has not occurred in an earlier row. */
  function FirstMask(rows: seq<Row>, keys: seq<nat>): (m: seq<bool>)
    ensures |m| == |rows|
  {
    seq(|rows|, i requires 0 <= i < |rows| => Key(rows[i], keys) !in KeysOf(rows[..i], keys))
  }

  /** `df.drop_duplicates(subset=keys)`, which keeps the first row of each key. */
  function KeepFirst(rows: seq<Row>, keys: seq<nat>): seq<Row> {
    Select(rows, FirstMask(rows, keys))
  }

  /** The first row carrying key `k`, searching from the top. */
  function FirstWithKey(rows: seq<Row>, keys: seq<nat>, k: seq<Cell>): Option<Row> {
    if rows == [] then None
    else if Key(rows[0], keys) == k then Some(rows[0])
    else FirstWithKey(rows[1..], keys, k)
  }

  lemma {:induction false} FirstWithKeyFound(rows: seq<Row>, keys: seq<nat>, k: seq<Cell>)
    ensures FirstWithKey(rows, keys, k).Some? <==> k in KeysOf(rows, keys)
  {
    if rows != [] {
      FirstWithKeyFound(rows[1..], keys, k);
      KeysOfCons(rows[0], rows[1..], keys);
      assert [rows[0]] + rows[1..] == rows;
    }
  }

  lemma {:induction false} FirstWithKeySnoc(rows: seq<Row>, x: Row, keys: seq<nat>, k: seq<Cell>)
    ensures FirstWithKey(rows + [x], keys, k)
         == if FirstWithKey(rows, keys, k).Some? then FirstWithKey(rows, keys, k)
            else if Key(x, keys) == k then Some(x) else None
  {
    if rows != [] {
      assert (rows + [x])[1..] == rows[1..] + [x];
      FirstWithKeySnoc(rows[1..], x, keys, k);
    }
  }

  /** Dropping duplicates on `keys` leaves pairwise distinct keys, loses no
      key, and every surviving row is the first input row with its key. */
  lemma {:induction false} KeepFirstSpec(rows: seq<Row>, keys: seq<nat>)
    ensures UniqueKeys(KeepFirst(rows, keys), keys)
    ensures KeysOf(KeepFirst(rows, keys), keys) == KeysOf(rows, keys)
    ensures forall x :: x in KeepFirst(rows, keys) ==> FirstWithKey(rows, keys, Key(x, keys)) == Some(x)
  {
    if rows != [] {
      var n := |rows| - 1;
      var rows', last := rows[..n], rows[n];
      assert rows' + [last] == rows;
      KeepFirstSpec(rows', keys);
      var p := KeepFirst(rows', keys);
      assert FirstMask(rows, keys)[..n] == FirstMask(rows', keys);
      SelectSnoc(rows', FirstMask(rows', keys), last, FirstMask(rows, keys)[n]);
      assert FirstMask(rows, keys) == FirstMask(rows', keys) + [FirstMask(rows, keys)[n]];
      var k := Key(last, keys);
      KeysOfSnoc(rows', last, keys);
      forall x | x in p ensures FirstWithKey(rows, keys, Key(x, keys)) == Some(x) {
        FirstWithKeySnoc(rows', last, keys, Key(x, keys));
      }
      if k !in KeysOf(rows', keys) {
        var r := p + [last];
        assert KeepFirst(rows, keys) == r;
        KeysOfSnoc(p, last, keys);
        forall i, j | 0 <= i < j < |r| ensures Key(r[i], keys) != Key(r[j], keys) {
          if j == |p| {
            assert p[i] in p;
          }
        }
        FirstWithKeyFound(rows', keys, k);
        FirstWithKeySnoc(rows', last, keys, k);
      }
    }
  }

  /** How many rows carry key `k` (`value_counts()` at `k`). */
  function Occurrences(rows: seq<Row>, keys: seq<nat>, k: seq<Cell>): nat {
    if rows == [] then 0
    else
      var n := |rows| - 1;
      Occurrences(rows[..n], keys, k) + (if Key(rows[n], keys) == k then 1 else 0)
  }

  lemma {:induction false} OccurrencesZero(rows: seq<Row>, keys: seq<nat>, k: seq<Cell>)
    ensures Occurrences(rows, keys, k) == 0 <==> k !in KeysOf(rows, keys)
  {
    if rows != [] {
      var n := |rows| - 1;
      OccurrencesZero(rows[..n], keys, k);
      KeysOfSnoc(rows[..n], rows[n], keys);
      assert rows[..n] + [rows[n]] == rows;
    }
  }

  lemma {:induction false} OccurrencesAtMostOnce(rows: seq<Row>, keys: seq<nat>, k: seq<Cell>)
    requires UniqueKeys(rows, keys)
    ensures Occurrences(rows, keys, k) <= 1
  {
    if rows != [] {
      var n := |rows| - 1;
      OccurrencesAtMostOnce(rows[..n], keys, k);
      if Key(rows[n], keys) == k {
        forall x | x in rows[..n] ensures Key(x, keys) != k {
          var i :| 0 <= i < n && rows[..n][i] == x;
          assert rows[i] == x;
        }
        OccurrencesZero(rows[..n], keys, k);
      }
    }
  }

  /** `value_counts()[value_counts() > 1]`: the keys carried by more than one row. */
  function DuplicatedKeys(rows: seq<Row>, keys: seq<nat>): set<seq<Cell>> {
    set x | x in rows && Occurrences(rows, keys, Key(x, keys)) > 1 :: Key(x, keys)
  }

  /** Marks the rows whose key occurs exactly once. */
  function UniqueMask(rows: seq<Row>, keys: seq<nat>): (m: seq<bool>)
    ensures |m| == |rows|
  {
    seq(|rows|, i requires 0 <= i < |rows| => Occurrences(rows, keys, Key(rows[i], keys)) == 1)
  }

  /** `df.drop_duplicates(subset=keys, keep=False)`: every row whose key
      occurs more than once is dropped. */
  function KeepNone(rows: seq<Row>, keys: seq<nat>): seq<Row> {
    Select(rows, UniqueMask(rows, keys))
  }

  /** On rows with pairwise distinct keys no key is duplicated, and dropping
      all duplicated rows changes nothing. */
  lemma UniqueKeysHaveNoDuplicates(rows: seq<Row>, keys: seq<nat>)
    requires UniqueKeys(rows, keys)
    ensures DuplicatedKeys(rows, keys) == {}
    ensures KeepNone(rows, keys) == rows
  {
    forall x | x in rows ensures Occurrences(rows, keys, Key(x, keys)) == 1 {
      OccurrencesAtMostOnce(rows, keys, Key(x, keys));
      OccurrencesZero(rows, keys, Key(x, keys));
    }
    forall i | 0 <= i < |rows| ensures UniqueMask(rows, keys)[i] {
      assert rows[i] in rows;
    }
    SelectAll(rows, UniqueMask(rows, keys));
  }

  lemma AgreeSameKey(x: Row, y: Row, except: set<nat>, keys: seq<nat>)
    requires Agree(x, y, except)
    requires forall i :: 0 <= i < |keys| ==> keys[i] !in except
    ensures Key(x, keys) == Key(y, keys)
  {
  }

  /** Narrowing away from the key columns keeps keys pairwise distinct. */
  lemma {:induction false} NarrowsKeepsUniqueKeys(a: seq<Row>, b: seq<Row>, except: set<nat>, keys: seq<nat>)
    requires Narrows(a, b, except) && UniqueKeys(b, keys)
    requires forall i :: 0 <= i < |keys| ==> keys[i] !in except
    ensures UniqueKeys(a, keys)
    decreases |b|
  {
    if a != [] {
      var a', b' := a[..|a| - 1], b[..|b| - 1];
      if Agree(a[|a| - 1], b[|b| - 1], except) && Narrows(a', b', except) {
        NarrowsKeepsUniqueKeys(a', b', except, keys);
        AgreeSameKey(a[|a| - 1], b[|b| - 1], except, keys);
        forall i, j | 0 <= i < j < |a| ensures Key(a[i], keys) != Key(a[j], keys) {
          if j == |a| - 1 {
            NarrowsFrom(a', b', except, i);
            var k :| 0 <= k < |b'| && Agree(a'[i], b'[k], except);
            AgreeSameKey(a'[i], b'[k], except, keys);
            assert Key(b[k], keys) != Key(b[|b| - 1], keys);
          } else {
            assert a'[i] == a[i] && a'[j] == a[j];
          }
        }
      } else {
        NarrowsKeepsUniqueKeys(a, b', except, keys);
      }
    }
  }

  // ----- drop(index=...) -----

  /** `df.loc[mask].index`: the labels of the rows the mask flags. */
  function LabelsWhere(rows: seq<Row>, mask: seq<bool>): set<int>
    requires |mask| == |rows|
  {
    set i | 0 <= i < |rows| && mask[i] :: rows[i].index
  }

  function LabelMask(rows: seq<Row>, labels: set<int>): (m: seq<bool>)
    ensures |m| == |rows|
  {
    seq(|rows|, i requires 0 <= i < |rows| => rows[i].index !in labels)
  }

  /** `df.drop(index=labels)`: every row carrying one of the labels goes. */
  function DropLabels(rows: seq<Row>, labels: set<int>): (r: seq<Row>)
    ensures forall x :: x in r <==> x in rows && x.index !in labels
  {
    Select(rows, LabelMask(rows, labels))
  }

  /** Dropping the labels of the flagged rows leaves no flagged row. */
  lemma DropFlaggedSound(rows: seq<Row>, mask: seq<bool>, x: Row)
    requires |mask| == |rows|
    requires x in DropLabels(rows, LabelsWhere(rows, mask))
    ensures x in rows
    ensures forall i :: 0 <= i < |rows| && rows[i] == x ==> !mask[i]
  {
  }

  /** With distinct labels, dropping the labels of the flagged rows removes
      exactly the flagged rows. */
  lemma DropFlaggedExact(rows: seq<Row>, mask: seq<bool>)
    requires |mask| == |rows| && DistinctLabels(rows)
    ensures DropLabels(rows, LabelsWhere(rows, mask)) == Select(rows, Not(mask))
  {
    var labels := LabelsWhere(rows, mask);
    forall i | 0 <= i < |rows| ensures LabelMask(rows, labels)[i] == Not(mask)[i] {
      if rows[i].index in labels {
        var j :| 0 <= j < |rows| && mask[j] && rows[j].index == rows[i].index;
        assert i == j;
      }
    }
    assert LabelMask(rows, labels) == Not(mask);
  }

  // ----- column assignment and reset_index -----

  /** `df[c] = values`: replaces the cells of column `c` row by row. */
  function SetColumn(rows: seq<Row>, c: nat, values: seq<Cell>): (r: seq<Row>)
    requires |values| == |rows|
    ensures |r| == |rows|
    ensures forall i :: 0 <= i < |rows| ==> r[i].index == rows[i].index && |r[i].cells| == |rows[i].cells|
    ensures forall i, d :: 0 <= i < |rows| && 0 <= d < |rows[i].cells| ==>
              r[i].cells[d] == if d == c then values[i] else rows[i].cells[d]
  {
    seq(|rows|, i requires 0 <= i < |rows| =>
      Row(rows[i].index, if c < |rows[i].cells| then rows[i].cells[c := values[i]] else rows[i].cells))
  }

  /** `df.reset_index(drop=True)`: the rows, relabelled 0, 1, 2, ... */
  function Renumber(rows: seq<Row>): (r: seq<Row>)
    ensures |r| == |rows|
    ensures forall i :: 0 <= i < |rows| ==> r[i].index == i && r[i].cells == rows[i].cells
  {
    seq(|rows|, i requires 0 <= i < |rows| => Row(i, rows[i].cells))
  }

  /** Two row sequences of one length that agree position by position. */
  lemma {:induction false} PointwiseNarrows(a: seq<Row>, b: seq<Row>, except: set<nat>)
    requires |a| == |b|
    requires forall i :: 0 <= i < |a| ==> Agree(a[i], b[i], except)
    ensures Narrows(a, b, except)
  {
    if a != [] {
      var n := |a| - 1;
      PointwiseNarrows(a[..n], b[..n], except);
    }
  }

  lemma SetColumnNarrows(rows: seq<Row>, c: nat, values: seq<Cell>)
    requires |values| == |rows|
    requires forall i :: 0 <= i < |values| ==> values[i].Stamp?
    ensures Narrows(SetColumn(rows, c, values), rows, {c})
  {
    PointwiseNarrows(SetColumn(rows, c, values), rows, {c});
  }

  lemma RenumberNarrows(rows: seq<Row>)
    ensures Narrows(Renumber(rows), rows, {})
  {
    PointwiseNarrows(Renumber(rows), rows, {});
  }

  /** Which rows `drop_duplicates` keeps. */
  datatype Keep = KeepFirstRow | KeepNoDuplicate

  /** A pandas DataFrame whose in-place operations change its rows and columns. */
  class Frame {
    var columns: seq<Column>
    var rows: seq<Row>

    function Value(): Table
      reads this
    {
      Table(columns, rows)
    }

    constructor (t: Table)
      ensures Value() == t
    {
      columns := t.columns;
      rows := t.rows;
    }

    /** `df.copy()`: a new frame with the same contents. */
    method Copy() returns (f: Frame)
      ensures fresh(f) && f.Value() == Value()
    {
      f := new Frame(Value());
    }

    /** `df.dropna(inplace=True)`. */
    method DropNa()
      modifies this
      ensures columns == old(columns)
      ensures rows == DropIncomplete(old(rows))
    {
      rows := DropIncomplete(rows);
    }

    /** `df.drop_duplicates(subset=keys, keep=..., inplace=True)`. */
    method DropDuplicates(keys: seq<nat>, keep: Keep)
      modifies this
      ensures columns == old(columns)
      ensures rows == match keep
                      case KeepFirstRow => KeepFirst(old(rows), keys)
                      case KeepNoDuplicate => KeepNone(old(rows), keys)
    {
      match keep
      case KeepFirstRow => rows := KeepFirst(rows, keys);
      case KeepNoDuplicate => rows := KeepNone(rows, keys);
    }

    /** `df.drop(index=labels, inplace=True)`. */
    method Drop(labels: set<int>)
      modifies this
      ensures columns == old(columns)
      ensures rows == DropLabels(old(rows), labels)
    {
      rows := DropLabels(rows, labels);
    }

    /** `df[columns[c].name] = values`: the column gets the values and the
        kind pandas infers for them. */
    method Assign(c: nat, values: seq<Cell>, kind: Kind)
      requires c < |columns| && |values| == |rows|
      modifies this
      ensures columns == old(columns)[c := Column(old(columns)[c].name, kind)]
      ensures rows == SetColumn(old(rows), c, values)
    {
      columns := columns[c := Column(columns[c].name, kind)];
      rows := SetColumn(rows, c, values);
    }

    /** `df.reset_index(drop=True, inplace=True)`. */
    method ResetIndex()
      modifies this
      ensures columns == old(columns)
      ensures rows == Renumber(old(rows))
    {
      rows := Renumber(rows);
    }
  }
}
