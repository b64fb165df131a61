/** The pandas DataFrame as the script uses it: a set of column labels and a
    sequence of rows, each row holding one optional cell per column. A
    missing (`None`) cell is pandas' NaN/NaT/None. */
module Tables {
  import opened Wrappers
  import Text

  /** The scalar values that reach a cell. `Instant` is a pandas Timestamp
      (epoch seconds), `CalendarDate` a calendar day (days since
      1970-01-01) and `Clock` a `datetime.time` (second of the day); floats
      are carried as opaque reals. */
  datatype Value =
    | Int(i: int)
    | Float(x: real)
    | Str(s: string)
    | Bool(b: bool)
    | Instant(epoch: int)
    | CalendarDate(days: int)
    | Clock(second: nat)

  type Cell = Option<Value>
  type Row = map<string, Cell>

  datatype Frame = Frame(columns: set<string>, rows: seq<Row>)

  /** Every row has exactly the frame's columns. */
  ghost predicate Rectangular(f: Frame) {
    forall i :: 0 <= i < |f.rows| ==> f.rows[i].Keys == f.columns
  }

  type Table = f: Frame | Rectangular(f) witness Frame({}, [])

  /** The exceptions that end the script. */
  datatype Error =
    | NoVehicleData          // `None['timestamp']` when the feed had no vehicle
    | MissingColumn(name: string)   // a KeyError on a column label
    | DuplicateColumn        // two columns would end up with one label
    | NoRows                 // `iloc[0]` on a frame without rows
    | UnparsableTime         // `pd.to_datetime` without `errors='coerce'` on a bad value

  /** A row's cell, NaN when the row has no such column. */
  function Get(r: Row, c: string): Cell {
    if c in r then r[c] else None
  }

  /** Column labels of a list of records, as `pd.DataFrame(records)` collects them. */
  function KeysOf(recs: seq<Row>): (ks: set<string>)
    ensures forall c :: c in ks <==> exists i :: 0 <= i < |recs| && c in recs[i]
  {
    if recs == [] then {} else
      var rest := KeysOf(recs[1..]);
      assert forall i :: 1 <= i < |recs| ==> recs[i] == recs[1..][i - 1];
      recs[0].Keys + rest
  }

  /** `pd.DataFrame(records)`: one row per record, the columns are the union
      of the records' keys and a record lacking a column gets NaN there. */
  function FromRecords(recs: seq<Row>): (t: Table)
    ensures |t.rows| == |recs|
    ensures forall c :: c in t.columns <==> exists i :: 0 <= i < |recs| && c in recs[i]
    ensures forall i, c :: 0 <= i < |recs| && c in t.columns ==> t.rows[i][c] == Get(recs[i], c)
  {
    var cols := KeysOf(recs);
    Frame(cols, seq(|recs|, i requires 0 <= i < |recs| => map c | c in cols :: Get(recs[i], c)))
  }

  /** `df.drop(columns=names, errors='ignore')`. */
  function Drop(t: Table, names: set<string>): (r: Table)
    ensures r.columns == t.columns - names
    ensures |r.rows| == |t.rows|
    ensures forall i, c :: 0 <= i < |t.rows| && c in r.columns ==> r.rows[i][c] == t.rows[i][c]
  {
    var cols := t.columns - names;
    Frame(cols, seq(|t.rows|, i requires 0 <= i < |t.rows| => map c | c in cols :: t.rows[i][c]))
  }

  /** Two tables with the same columns and the same cells are equal. */
  lemma TableExt(a: Table, b: Table)
    requires a.columns == b.columns && |a.rows| == |b.rows|
    requires forall i, c :: 0 <= i < |a.rows| && c in a.columns ==> a.rows[i][c] == b.rows[i][c]
    ensures a == b
  {
    forall i | 0 <= i < |a.rows|
      ensures a.rows[i] == b.rows[i]
    {
      assert a.rows[i].Keys == b.rows[i].Keys;
    }
  }

  /** Dropping labels the table does not have changes nothing, so naming an
      absent column in a drop list is harmless. */
  lemma DropAbsent(t: Table, names: set<string>)
    ensures Drop(t, names) == Drop(t, names * t.columns)
    ensures names * t.columns == {} ==> Drop(t, names) == t
  {
    TableExt(Drop(t, names), Drop(t, names * t.columns));
    if names * t.columns == {} {
      TableExt(Drop(t, names), t);
    }
  }

  /** The label a column gets under a rename table: its entry, else its own. */
  function NewName(ren: map<string, string>, c: string): string {
    if c in ren then ren[c] else c
  }

  /** No two columns land on one label. */
  predicate InjectiveOn(ren: map<string, string>, cols: set<string>) {
    forall a, b :: a in cols && b in cols && a != b ==> NewName(ren, a) != NewName(ren, b)
  }

  function RenameRow(r: Row, ren: map<string, string>): Row
    requires InjectiveOn(ren, r.Keys)
  {
    map c | c in r.Keys :: NewName(ren, c) := r[c]
  }

  /** `df.rename(columns=ren)`. Entries for absent labels are ignored; a
      rename that would give two columns one label is an error. */
  function Rename(t: Table, ren: map<string, string>): (r: Result<Table, Error>)
    ensures r.Failure? <==> !InjectiveOn(ren, t.columns)
    ensures r.Failure? ==> r.error == DuplicateColumn
    ensures r.Success? ==>
      && r.value.columns == (set c | c in t.columns :: NewName(ren, c))
      && |r.value.rows| == |t.rows|
      && (forall i, c :: 0 <= i < |t.rows| && c in t.columns ==>
            r.value.rows[i][NewName(ren, c)] == t.rows[i][c])
  {
    if !InjectiveOn(ren, t.columns) then Failure(DuplicateColumn)
    else
      var cols := set c | c in t.columns :: NewName(ren, c);
      var rows := seq(|t.rows|, i requires 0 <= i < |t.rows| => RenameRow(t.rows[i], ren));
      assert forall i :: 0 <= i < |rows| ==> rows[i].Keys == cols by {
        forall i | 0 <= i < |rows| ensures rows[i].Keys == cols {
          assert t.rows[i].Keys == t.columns;
        }
      }
      Success(Frame(cols, rows))
  }

  /** A column the rename table maps moves to its new label with its cells. */
  lemma RenameMoves(t: Table, ren: map<string, string>, src: string, dst: string, i: int)
    requires Rename(t, ren).Success?
    requires src in t.columns && src in ren && ren[src] == dst && 0 <= i < |t.rows|
    ensures dst in Rename(t, ren).value.columns
    ensures Rename(t, ren).value.rows[i][dst] == t.rows[i][src]
  {
    assert NewName(ren, src) == dst;
  }

  /** A label that is neither a column nor a rename target is not a column
      after the rename. */
  lemma RenameAvoids(t: Table, ren: map<string, string>, x: string)
    requires Rename(t, ren).Success?
    requires x !in t.columns && forall k :: k in ren ==> ren[k] != x
    ensures x !in Rename(t, ren).value.columns
  {
  }

  /** A column the rename table does not mention keeps its label and cells. */
  lemma RenameKeepsOthers(t: Table, ren: map<string, string>, c: string, i: int)
    requires Rename(t, ren).Success?
    requires c in t.columns && c !in ren && 0 <= i < |t.rows|
    ensures c in Rename(t, ren).value.columns
    ensures Rename(t, ren).value.rows[i][c] == t.rows[i][c]
  {
    assert NewName(ren, c) == c;
  }

  /** Entries for labels the table lacks have no effect: renaming with the
      table restricted to present labels gives the same result, and a rename
      table naming no present label is a no-op. */
  lemma RenameAbsent(t: Table, ren: map<string, string>)
    ensures Rename(t, ren) == Rename(t, map c | c in ren && c in t.columns :: ren[c])
    ensures ren.Keys * t.columns == {} ==> Rename(t, ren) == Success(t)
  {
    var ren' := map c | c in ren && c in t.columns :: ren[c];
    assert forall c :: c in t.columns ==> NewName(ren, c) == NewName(ren', c);
    if ren.Keys * t.columns == {} {
      forall c | c in t.columns ensures NewName(ren, c) == c {
        assert c !in ren.Keys * t.columns;
      }
    }
    if InjectiveOn(ren, t.columns) {
      var a := Rename(t, ren).value;
      var b := Rename(t, ren').value;
      assert a.columns == b.columns;
      forall i, c | 0 <= i < |a.rows| && c in a.columns
        ensures a.rows[i][c] == b.rows[i][c]
      {
        var o :| o in t.columns && NewName(ren, o) == c;
      }
      TableExt(a, b);
      if ren.Keys * t.columns == {} {
        assert a.columns == t.columns;
        TableExt(a, t);
      }
    }
  }

  /** `df.reindex(columns=cols)`: exactly the given columns, cells kept where
      the table has the column and NaN where it does not. */
  function Reindex(t: Table, cols: set<string>): (r: Table)
    ensures r.columns == cols && |r.rows| == |t.rows|
    ensures forall i, c :: 0 <= i < |t.rows| && c in cols ==>
              r.rows[i][c] == (if c in t.columns then t.rows[i][c] else None)
  {
    Frame(cols, seq(|t.rows|, i requires 0 <= i < |t.rows| => map c | c in cols :: Get(t.rows[i], c)))
  }

  /** `pd.concat([a, b], ignore_index=True)`: the columns of both, the rows of
      `a` followed by the rows of `b`, NaN where a side lacks a column. */
  function Concat(a: Table, b: Table): (r: Table)
    ensures r.columns == a.columns + b.columns
    ensures |r.rows| == |a.rows| + |b.rows|
    ensures forall i, c :: 0 <= i < |a.rows| && c in r.columns ==> r.rows[i][c] == Get(a.rows[i], c)
    ensures forall i, c :: 0 <= i < |b.rows| && c in r.columns ==> r.rows[|a.rows| + i][c] == Get(b.rows[i], c)
  {
    var cols := a.columns + b.columns;
    Frame(cols, Reindex(a, cols).rows + Reindex(b, cols).rows)
  }

  /** `df[c] = df[c].<f>`: transforms one existing column cell by cell. */
  function MapColumn(t: Table, c: string, f: Cell -> Cell): (r: Table)
    requires c in t.columns
    ensures r.columns == t.columns && |r.rows| == |t.rows|
    ensures forall i :: 0 <= i < |t.rows| ==> r.rows[i] == t.rows[i][c := f(t.rows[i][c])]
  {
    Frame(t.columns, seq(|t.rows|, i requires 0 <= i < |t.rows| => t.rows[i][c := f(t.rows[i][c])]))
  }

  /** Mapping one column leaves every other column's cells alone. */
  lemma MapColumnKeeps(t: Table, c: string, f: Cell -> Cell, d: string, i: int)
    requires c in t.columns && d in t.columns && d != c && 0 <= i < |t.rows|
    ensures d in MapColumn(t, c, f).columns && MapColumn(t, c, f).rows[i][d] == t.rows[i][d]
  {
  }

  /** `df[c] = <computed per row>`: adds the column, or overwrites it. */
  function SetColumn(t: Table, c: string, f: Row -> Cell): (r: Table)
    ensures r.columns == t.columns + {c} && |r.rows| == |t.rows|
    ensures forall i :: 0 <= i < |t.rows| ==> r.rows[i] == t.rows[i][c := f(t.rows[i])]
  {
    Frame(t.columns + {c}, seq(|t.rows|, i requires 0 <= i < |t.rows| => t.rows[i][c := f(t.rows[i])]))
  }

  /** The first label of `cols` the table lacks, if any. */
  function FirstMissing(cols: seq<string>, have: set<string>): (m: Option<string>)
    ensures m.None? <==> forall k :: 0 <= k < |cols| ==> cols[k] in have
    ensures m.Some? ==> m.value in cols && m.value !in have
  {
    if cols == [] then None
    else if cols[0] !in have then Some(cols[0])
    else FirstMissing(cols[1..], have)
  }

  /** `df[cols]`: a KeyError when a label is missing, else just those columns. */
  function Select(t: Table, cols: seq<string>): (r: Result<Table, Error>)
    ensures r.Failure? <==> exists k :: 0 <= k < |cols| && cols[k] !in t.columns
    ensures r.Failure? ==> r.error.MissingColumn? && r.error.name in cols && r.error.name !in t.columns
    ensures r.Success? ==>
      && r.value.columns == (set k | k in cols) && |r.value.rows| == |t.rows|
      && forall i, c :: 0 <= i < |t.rows| && c in r.value.columns ==> r.value.rows[i][c] == t.rows[i][c]
  {
    match FirstMissing(cols, t.columns)
    case Some(c) => Failure(MissingColumn(c))
    case None =>
      var keep := set k | k in cols;
      Success(Frame(keep, seq(|t.rows|, i requires 0 <= i < |t.rows| => map c | c in keep :: t.rows[i][c])))
  }

  /** Renames every column by `f`; fails when two columns land on one label. */
  function RenameAll(t: Table, f: string -> string): (r: Result<Table, Error>)
    ensures r.Success? ==>
      && r.value.columns == (set c | c in t.columns :: f(c))
      && |r.value.rows| == |t.rows|
      && (forall i, c :: 0 <= i < |t.rows| && c in t.columns ==> r.value.rows[i][f(c)] == t.rows[i][c])
    ensures r.Failure? <==> exists a, b :: a in t.columns && b in t.columns && a != b && f(a) == f(b)
    ensures r.Failure? ==> r.error == DuplicateColumn
  {
    var ren := map c | c in t.columns :: f(c);
    assert forall c :: c in t.columns ==> NewName(ren, c) == f(c);
    Rename(t, ren)
  }

  /** `df.columns = df.columns.str.strip()`. */
  function StripNames(t: Table): (r: Result<Table, Error>)
    ensures r.Success? ==>
      && r.value.columns == (set c | c in t.columns :: Text.Strip(c))
      && |r.value.rows| == |t.rows|
      && (forall i, c :: 0 <= i < |t.rows| && c in t.columns ==>
            r.value.rows[i][Text.Strip(c)] == t.rows[i][c])
    ensures r.Failure? <==> exists a, b :: a in t.columns && b in t.columns && a != b && Text.Strip(a) == Text.Strip(b)
    ensures r.Failure? ==> r.error == DuplicateColumn
  {
    RenameAll(t, Text.Strip)
  }
}
