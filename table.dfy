/** The values the cleaning script works on: columns with the storage kind
    pandas gave them, cells, rows that carry their index label, and tables.
    Also the relation "narrows" between a cleaned row sequence and the one it
    came from: same rows, same relative order, some rows left out. */
module Table {

  datatype Option<T> = None | Some(value: T)

  datatype Result<T, E> = Ok(value: T) | Err(error: E)

  /** The storage kind (dtype) of a column. `select_dtypes` picks columns by it:
      "int" and "float" select IntKind and FloatKind, "datetime64" selects
      DateTimeKind, "object" selects ObjectKind (text and mixed values). */
  datatype Kind = IntKind | FloatKind | DateTimeKind | ObjectKind | OtherKind

  datatype Column = Column(name: string, kind: Kind)

  /** A point in time: a calendar day and a time of day within it. */
  datatype Timestamp = Timestamp(year: int, month: int, day: int, time: nat)

  /** One cell. Missing stands for NaN, None and NaT alike; integers and
      floats are both numbers. */
  datatype Cell = Missing | Num(value: real) | Stamp(at: Timestamp) | Str(text: string)

  /** A row: its index label and its cells, one per column. */
  datatype Row = Row(index: int, cells: seq<Cell>)

  datatype Table = Table(columns: seq<Column>, rows: seq<Row>)

  /** Every row has one cell per column, as in a frame pandas has read. */
  predicate WellFormed(t: Table) {
    forall x :: x in t.rows ==> |x.cells| == |t.columns|
  }

  /** The cell of row `r` in column `c`; a row narrower than the table reads
      as missing there. */
  function CellAt(r: Row, c: nat): Cell {
    if c < |r.cells| then r.cells[c] else Missing
  }

  /** Chronological order of timestamps. */
  predicate Before(a: Timestamp, b: Timestamp) {
    || a.year < b.year
    || (a.year == b.year && a.month < b.month)
    || (a.year == b.year && a.month == b.month && a.day < b.day)
    || (a.year == b.year && a.month == b.month && a.day == b.day && a.time < b.time)
  }

  /** Midnight at the start of 1900-01-01. */
  const StartOf1900 := Timestamp(1900, 1, 1, 0)

  predicate IsUpper(ch: char) {
    'A' <= ch <= 'Z'
  }

  /** `str.lower` on one character (ASCII letters only). */
  function LowerChar(ch: char): (r: char)
    ensures !IsUpper(r)
    ensures IsUpper(ch) ==> r as int == ch as int + 32
    ensures !IsUpper(ch) ==> r == ch
  {
    if IsUpper(ch) then (ch as int + 32) as char else ch
  }

  /** `str.lower` (ASCII letters only). */
  function Lower(s: string): (r: string)
    ensures |r| == |s|
    ensures forall i :: 0 <= i < |s| ==> r[i] == LowerChar(s[i])
  {
    if s == [] then [] else [LowerChar(s[0])] + Lower(s[1..])
  }

  /** Python's `sub in s` on strings. */
  predicate HasSubstring(s: string, sub: string) {
    |sub| <= |s| && (s[..|sub|] == sub || HasSubstring(s[1..], sub))
  }

  predicate Increasing(s: seq<nat>) {
    forall i, j :: 0 <= i < j < |s| ==> s[i] < s[j]
  }

  /** `df.select_dtypes(include=kinds).columns`, as positions: the columns
      whose kind is one of `kinds`, in column order. */
  function ColumnsOfKind(columns: seq<Column>, kinds: set<Kind>): (r: seq<nat>)
    ensures Increasing(r)
    ensures forall c: nat :: c in r <==> c < |columns| && columns[c].kind in kinds
  {
    if columns == [] then []
    else
      var n := |columns| - 1;
      var init := ColumnsOfKind(columns[..n], kinds);
      assert forall k :: 0 <= k < |init| ==> init[k] < n by {
        forall k | 0 <= k < |init| ensures init[k] < n {
          assert init[k] in init;
        }
      }
      init + (if columns[n].kind in kinds then [n] else [])
  }

  /** The row labels are pairwise distinct, as for a freshly read sheet. */
  ghost predicate DistinctLabels(rows: seq<Row>) {
    forall i, j :: 0 <= i < j < |rows| ==> rows[i].index != rows[j].index
  }

  /** Row `x` is row `y` up to its label, except that cells in the columns
      `except` may have been replaced by timestamps. */
  predicate Agree(x: Row, y: Row, except: set<nat>) {
    && |x.cells| == |y.cells|
    && forall c: nat :: c < |x.cells| ==>
         x.cells[c] == y.cells[c] || (c in except && x.cells[c].Stamp?)
  }

  /** `a` is obtained from `b` by leaving out rows, keeping the relative
      order of the others, relabelling, and replacing cells of the columns
      `except` by timestamps. */
  ghost predicate Narrows(a: seq<Row>, b: seq<Row>, except: set<nat>)
    decreases |b|
  {
    if a == [] then true
    else if b == [] then false
    else
      || (Agree(a[|a| - 1], b[|b| - 1], except) && Narrows(a[..|a| - 1], b[..|b| - 1], except))
      || Narrows(a, b[..|b| - 1], except)
  }

  lemma {:induction false} NarrowsRefl(s: seq<Row>, except: set<nat>)
    ensures Narrows(s, s, except)
    decreases |s|
  {
    if s != [] {
      NarrowsRefl(s[..|s| - 1], except);
    }
  }

  lemma {:induction false} NarrowsShorter(a: seq<Row>, b: seq<Row>, except: set<nat>)
    requires Narrows(a, b, except)
    ensures |a| <= |b|
    decreases |b|
  {
    if a != [] {
      if Agree(a[|a| - 1], b[|b| - 1], except) && Narrows(a[..|a| - 1], b[..|b| - 1], except) {
        NarrowsShorter(a[..|a| - 1], b[..|b| - 1], except);
      } else {
        NarrowsShorter(a, b[..|b| - 1], except);
      }
    }
  }

  /** Extending `b` by one row extends `a` by that row, or by nothing. */
  lemma NarrowsSnoc(a: seq<Row>, b: seq<Row>, x: Row, y: Row, keep: bool, except: set<nat>)
    requires Narrows(a, b, except)
    requires keep ==> Agree(x, y, except)
    ensures Narrows(a + (if keep then [x] else []), b + [y], except)
  {
    var b' := b + [y];
    assert b'[..|b|] == b;
    if keep {
      var a' := a + [x];
      assert a'[..|a|] == a && a'[|a|] == x && b'[|b|] == y;
      assert Narrows(a', b', except);
    } else {
      assert a + [] == a;
      if a != [] {
        assert Narrows(a, b'[..|b'| - 1], except);
      }
    }
  }

  lemma AgreeTrans(x: Row, y: Row, z: Row, e1: set<nat>, e2: set<nat>)
    requires Agree(x, y, e1) && Agree(y, z, e2)
    ensures Agree(x, z, e1 + e2)
  {
  }

  lemma {:induction false} NarrowsTrans(a: seq<Row>, b: seq<Row>, c: seq<Row>, e1: set<nat>, e2: set<nat>)
    requires Narrows(a, b, e1) && Narrows(b, c, e2)
    ensures Narrows(a, c, e1 + e2)
    decreases |c|
  {
    if a == [] {
      return;
    }
    var a', b', c' := a[..|a| - 1], b[..|b| - 1], c[..|c| - 1];
    if Agree(b[|b| - 1], c[|c| - 1], e2) && Narrows(b', c', e2) {
      if Agree(a[|a| - 1], b[|b| - 1], e1) && Narrows(a', b', e1) {
        NarrowsTrans(a', b', c', e1, e2);
        AgreeTrans(a[|a| - 1], b[|b| - 1], c[|c| - 1], e1, e2);
      } else {
        NarrowsTrans(a, b', c', e1, e2);
      }
    } else {
      NarrowsTrans(a, b, c', e1, e2);
    }
  }

  lemma {:induction false} NarrowsWiden(a: seq<Row>, b: seq<Row>, e1: set<nat>, e2: set<nat>)
    requires Narrows(a, b, e1) && e1 <= e2
    ensures Narrows(a, b, e2)
    decreases |b|
  {
    if a != [] {
      if Agree(a[|a| - 1], b[|b| - 1], e1) && Narrows(a[..|a| - 1], b[..|b| - 1], e1) {
        NarrowsWiden(a[..|a| - 1], b[..|b| - 1], e1, e2);
      } else {
        NarrowsWiden(a, b[..|b| - 1], e1, e2);
      }
    }
  }

  /** Every row of `a` agrees with some row of `b`. */
  lemma {:induction false} NarrowsFrom(a: seq<Row>, b: seq<Row>, except: set<nat>, i: nat)
    requires Narrows(a, b, except) && i < |a|
    ensures exists j :: 0 <= j < |b| && Agree(a[i], b[j], except)
    decreases |b|
  {
    var a', b' := a[..|a| - 1], b[..|b| - 1];
    if Agree(a[|a| - 1], b[|b| - 1], except) && Narrows(a', b', except) {
      if i == |a| - 1 {
        assert Agree(a[i], b[|b| - 1], except);
      } else {
        NarrowsFrom(a', b', except, i);
        var j :| 0 <= j < |b'| && Agree(a'[i], b'[j], except);
        assert Agree(a[i], b[j], except);
      }
    } else {
      NarrowsFrom(a, b', except, i);
      var j :| 0 <= j < |b'| && Agree(a[i], b'[j], except);
      assert Agree(a[i], b[j], except);
    }
  }
}
