/** The left merge of the bus table with the colour table on `Line_ID`:
    every left row is kept, in order, once per matching reference row, or
    once with NaN colour and operator when none matches. Keys compare by
    equality, NaN matching NaN as pandas does. */
module Join {
  import opened Wrappers
  import opened Tables

  const LineKey := "Line_ID"
  const ColorId := "Color_ID"
  const Operator := "Operator"

  /** The reference rows whose key equals `key`, in reference order. */
  function Matches(key: Cell, right: seq<Row>): (m: seq<Row>)
    ensures |m| <= |right|
    ensures forall r :: r in m <==> r in right && Get(r, LineKey) == key
  {
    if right == [] then []
    else
      (if Get(right[0], LineKey) == key then [right[0]] else []) + Matches(key, right[1..])
  }

  /** The matches hold each reference row carrying the key as often as the
      reference table does, and no other row: a colour key listed twice
      duplicates the left row twice. */
  lemma {:induction false} MatchesMultiplicity(key: Cell, right: seq<Row>, r: Row)
    ensures multiset(Matches(key, right))[r] == if Get(r, LineKey) == key then multiset(right)[r] else 0
  {
    if right != [] {
      MatchesMultiplicity(key, right[1..], r);
      assert right == [right[0]] + right[1..];
      assert multiset(right) == multiset([right[0]]) + multiset(right[1..]);
      var head := if Get(right[0], LineKey) == key then [right[0]] else [];
      assert Matches(key, right) == head + Matches(key, right[1..]);
      assert multiset(Matches(key, right)) == multiset(head) + multiset(Matches(key, right[1..]));
    }
  }

  /** The matches keep the reference table's order: matching a table split
      anywhere gives the matches of the first part, then those of the second. */
  lemma {:induction false} MatchesAppend(key: Cell, a: seq<Row>, b: seq<Row>)
    ensures Matches(key, a + b) == Matches(key, a) + Matches(key, b)
  {
    if a != [] {
      assert (a + b)[0] == a[0];
      assert (a + b)[1..] == a[1..] + b;
      MatchesAppend(key, a[1..], b);
    } else {
      assert a + b == b;
    }
  }

  /** A left row with the reference colour and operator stored under the given labels. */
  function Attach(l: Row, ref: Option<Row>, cn: string, on: string): (r: Row)
    ensures r.Keys == l.Keys + {cn, on}
    ensures forall c :: c in l && c != cn && c != on ==> r[c] == l[c]
    ensures r[on] == (if ref.Some? then Get(ref.value, Operator) else None)
    ensures cn != on ==> r[cn] == (if ref.Some? then Get(ref.value, ColorId) else None)
  {
    match ref
    case Some(r) => l[cn := Get(r, ColorId)][on := Get(r, Operator)]
    case None => l[cn := None][on := None]
  }

  /** The output rows one left row produces: with matches, output row j is
      the left row with the colour and operator of the j-th match, in
      reference order; without, one row with NaN colour and operator. */
  function JoinRow(l: Row, right: seq<Row>, cn: string, on: string): (out: seq<Row>)
    ensures |out| == if |Matches(Get(l, LineKey), right)| == 0 then 1 else |Matches(Get(l, LineKey), right)|
    ensures Matches(Get(l, LineKey), right) == [] ==> out == [l[cn := None][on := None]]
    ensures forall j, c :: 0 <= j < |out| && c in l && c != cn && c != on ==> c in out[j] && out[j][c] == l[c]
    ensures Matches(Get(l, LineKey), right) != [] ==>
      forall j :: 0 <= j < |out| ==> out[j] == Attach(l, Some(Matches(Get(l, LineKey), right)[j]), cn, on)
  {
    var ms := Matches(Get(l, LineKey), right);
    if ms == [] then [Attach(l, None, cn, on)]
    else seq(|ms|, j requires 0 <= j < |ms| => Attach(l, Some(ms[j]), cn, on))
  }

  function JoinRows(ls: seq<Row>, right: seq<Row>, cn: string, on: string): (out: seq<Row>)
    ensures |out| >= |ls|
  {
    if ls == [] then [] else JoinRow(ls[0], right, cn, on) + JoinRows(ls[1..], right, cn, on)
  }

  lemma {:induction false} JoinRowsAppend(a: seq<Row>, b: seq<Row>, right: seq<Row>, cn: string, on: string)
    ensures JoinRows(a + b, right, cn, on) == JoinRows(a, right, cn, on) + JoinRows(b, right, cn, on)
  {
    if a == [] {
      assert a + b == b;
    } else {
      assert (a + b)[0] == a[0];
      assert (a + b)[1..] == a[1..] + b;
      JoinRowsAppend(a[1..], b, right, cn, on);
    }
  }

  /** Every output row is a left row plus the two attached columns. */
  lemma {:induction false} JoinRowsKeys(ls: seq<Row>, right: seq<Row>, cn: string, on: string, ks: set<string>)
    requires forall i :: 0 <= i < |ls| ==> ls[i].Keys == ks
    ensures forall j :: 0 <= j < |JoinRows(ls, right, cn, on)| ==> JoinRows(ls, right, cn, on)[j].Keys == ks + {cn, on}
  {
    if ls != [] {
      JoinRowsKeys(ls[1..], right, cn, on, ks);
      var h := JoinRow(ls[0], right, cn, on);
      assert forall j :: 0 <= j < |h| ==> h[j].Keys == ks + {cn, on};
    }
  }

  /** A key no reference row carries matches nothing. */
  lemma {:induction false} MatchesNone(key: Cell, right: seq<Row>)
    requires forall i :: 0 <= i < |right| ==> Get(right[i], LineKey) != key
    ensures Matches(key, right) == []
  {
    if right != [] {
      assert forall i :: 0 <= i < |right[1..]| ==> right[1..][i] == right[i + 1];
      MatchesNone(key, right[1..]);
    }
  }

  /** No two reference rows share a key. */
  predicate UniqueKeys(right: seq<Row>) {
    forall i, j :: 0 <= i < j < |right| ==> Get(right[i], LineKey) != Get(right[j], LineKey)
  }

  /** With unique reference keys a left row matches at most one row: the
      one with its key, if there is one. */
  lemma {:induction false} MatchesUnique(key: Cell, right: seq<Row>)
    requires UniqueKeys(right)
    ensures |Matches(key, right)| <= 1
    ensures forall i :: 0 <= i < |right| && Get(right[i], LineKey) == key ==> Matches(key, right) == [right[i]]
  {
    if right != [] {
      assert UniqueKeys(right[1..]) by {
        forall i, j | 0 <= i < j < |right[1..]|
          ensures Get(right[1..][i], LineKey) != Get(right[1..][j], LineKey)
        {
          assert right[1..][i] == right[i + 1] && right[1..][j] == right[j + 1];
        }
      }
      MatchesUnique(key, right[1..]);
      if Get(right[0], LineKey) == key {
        assert forall i :: 1 <= i < |right| ==> Get(right[i], LineKey) != key;
        assert forall r :: r in right[1..] ==> Get(r, LineKey) != key by {
          forall r | r in right[1..] ensures Get(r, LineKey) != key {
            var i :| 0 <= i < |right[1..]| && right[1..][i] == r;
            assert right[i + 1] == r;
          }
        }
        if Matches(key, right[1..]) != [] {
          assert Matches(key, right[1..])[0] in Matches(key, right[1..]);
        }
      } else {
        forall i | 0 <= i < |right| && Get(right[i], LineKey) == key
          ensures Matches(key, right) == [right[i]]
        {
          assert right[1..][i - 1] == right[i];
        }
      }
    }
  }

  /** The reference row carrying `key`, if any. */
  function Lookup(key: Cell, right: seq<Row>): (r: Option<Row>)
    ensures r.Some? ==> r.value in right && Get(r.value, LineKey) == key
    ensures r.None? ==> forall i :: 0 <= i < |right| ==> Get(right[i], LineKey) != key
  {
    if right == [] then None
    else if Get(right[0], LineKey) == key then Some(right[0])
    else
      var r := Lookup(key, right[1..]);
      assert forall i :: 1 <= i < |right| ==> right[i] == right[1..][i - 1];
      r
  }

  /** A one-element head and a tail that agree with `want` position by
      position make up `want`. */
  lemma ConsEach<T>(head: seq<T>, tail: seq<T>, want: seq<T>)
    requires |head| == 1 && |want| == |tail| + 1 && head[0] == want[0]
    requires forall i :: 0 <= i < |tail| ==> tail[i] == want[i + 1]
    ensures head + tail == want
  {
  }

  /** With unique reference keys one left row yields exactly one output row:
      itself with the colour and operator of the reference row carrying its
      key, NaN when there is none. */
  lemma JoinRowUnique(l: Row, right: seq<Row>, cn: string, on: string)
    requires UniqueKeys(right)
    ensures JoinRow(l, right, cn, on) == [Attach(l, Lookup(Get(l, LineKey), right), cn, on)]
  {
    var key := Get(l, LineKey);
    MatchesUnique(key, right);
    var lk := Lookup(key, right);
    if lk.Some? {
      var i :| 0 <= i < |right| && right[i] == lk.value;
      assert Matches(key, right) == [right[i]];
    } else {
      MatchesNone(key, right);
    }
  }

  /** With unique reference keys the join keeps the row count and the row
      order exactly: output row i is left row i with the colour and operator
      of the reference row carrying its key, NaN when there is none. */
  lemma {:induction false} JoinRowsUnique(ls: seq<Row>, right: seq<Row>, cn: string, on: string)
    requires UniqueKeys(right)
    ensures |JoinRows(ls, right, cn, on)| == |ls|
    ensures forall i :: 0 <= i < |ls| ==>
              JoinRows(ls, right, cn, on)[i] == Attach(ls[i], Lookup(Get(ls[i], LineKey), right), cn, on)
  {
    if ls != [] {
      var tail := JoinRows(ls[1..], right, cn, on);
      JoinRowsUnique(ls[1..], right, cn, on);
      JoinRowUnique(ls[0], right, cn, on);
      var want := seq(|ls|, i requires 0 <= i < |ls| => Attach(ls[i], Lookup(Get(ls[i], LineKey), right), cn, on));
      forall i | 0 <= i < |tail| ensures tail[i] == want[i + 1] {
        assert ls[1..][i] == ls[i + 1];
      }
      ConsEach(JoinRow(ls[0], right, cn, on), tail, want);
    }
  }

  /** A table with every row joined against the reference rows. */
  function AttachAll(l: Table, right: seq<Row>, cn: string, on: string): (r: Table)
    ensures r.columns == l.columns + {cn, on}
    ensures r.rows == JoinRows(l.rows, right, cn, on)
    ensures |r.rows| >= |l.rows|
    ensures UniqueKeys(right) ==> |r.rows| == |l.rows|
    ensures UniqueKeys(right) ==> forall i, c :: 0 <= i < |l.rows| && c in l.columns && c != cn && c != on ==>
              r.rows[i][c] == l.rows[i][c]
  {
    JoinRowsKeys(l.rows, right, cn, on, l.columns);
    if UniqueKeys(right) then
      JoinRowsUnique(l.rows, right, cn, on);
      Frame(l.columns + {cn, on}, JoinRows(l.rows, right, cn, on))
    else
    Frame(l.columns + {cn, on}, JoinRows(l.rows, right, cn, on))
  }

  /** pandas' `_x` suffix for the colour and operator columns the left
      table already has. */
  function SuffixMap(cols: set<string>): (ren: map<string, string>)
    ensures ren.Keys == cols * {ColorId, Operator}
    ensures forall c :: c in cols && c != ColorId && c != Operator ==> NewName(ren, c) == c
  {
    map c | c in cols * {ColorId, Operator} :: c + "_x"
  }

  /** The label the reference column `c` gets: `c_y` when the left has `c`. */
  function RightLabel(cols: set<string>, c: string): string {
    if c in cols then c + "_y" else c
  }

  /** Renaming the left side keeps every other column and cell in place. */
  lemma SuffixRenameKeeps(left: Table)
    requires Rename(left, SuffixMap(left.columns)).Success?
    ensures var l := Rename(left, SuffixMap(left.columns)).value;
      forall i, c :: 0 <= i < |left.rows| && c in left.columns && c != ColorId && c != Operator ==>
        c in l.columns && l.rows[i][c] == left.rows[i][c]
  {
    var ren := SuffixMap(left.columns);
    forall i, c | 0 <= i < |left.rows| && c in left.columns && c != ColorId && c != Operator
      ensures c in Rename(left, ren).value.columns && Rename(left, ren).value.rows[i][c] == left.rows[i][c]
    {
      RenameKeepsOthers(left, ren, c, i);
    }
  }

  /** The merge with pandas' `_x`/`_y` suffixes: a colour or operator column
      the left table already has is renamed with `_x`, and the reference
      one then gets `_y`; labels that still clash are an error. */
  function SuffixedJoin(left: Table, right: seq<Row>): (r: Result<Table, Error>)
    ensures r.Success? ==> |r.value.rows| >= |left.rows|
    ensures r.Success? && UniqueKeys(right) ==> |r.value.rows| == |left.rows|
    ensures r.Success? && UniqueKeys(right) ==>
      forall i, c :: 0 <= i < |left.rows| && c in left.columns && c != ColorId && c != Operator ==>
        c in r.value.columns && r.value.rows[i][c] == left.rows[i][c]
  {
    var cn := RightLabel(left.columns, ColorId);
    var on := RightLabel(left.columns, Operator);
    var renamed := Rename(left, SuffixMap(left.columns));
    if renamed.Failure? then Failure(renamed.error)
    else if cn in renamed.value.columns || on in renamed.value.columns then Failure(DuplicateColumn)
    else
      SuffixRenameKeeps(left);
      Success(AttachAll(renamed.value, right, cn, on))
  }

  /** Without colour or operator columns on the left no label is touched. */
  lemma SuffixedJoinPlain(left: Table, right: seq<Row>)
    requires ColorId !in left.columns && Operator !in left.columns
    ensures SuffixedJoin(left, right) == Success(AttachAll(left, right, ColorId, Operator))
  {
    var ren := SuffixMap(left.columns);
    assert ren.Keys == {};
    RenameAbsent(left, ren);
  }

  /** The left join proper. The right side is the reference table cut to
      its three columns; a table without `Line_ID` is a KeyError. With
      unique reference keys every left column other than colour and
      operator comes through unchanged, row for row. */
  function LeftJoin(left: Table, colors: Table): (r: Result<Table, Error>)
    requires colors.columns == {LineKey, ColorId, Operator}
    ensures LineKey !in left.columns ==> r == Failure(MissingColumn(LineKey))
    ensures LineKey in left.columns && ColorId !in left.columns && Operator !in left.columns ==>
      r == Success(AttachAll(left, colors.rows, ColorId, Operator))
    ensures r.Success? ==> |r.value.rows| >= |left.rows|
    ensures r.Success? && UniqueKeys(colors.rows) ==> |r.value.rows| == |left.rows|
    ensures r.Success? && UniqueKeys(colors.rows) ==>
      forall i, c :: 0 <= i < |left.rows| && c in left.columns && c != ColorId && c != Operator ==>
        c in r.value.columns && r.value.rows[i][c] == left.rows[i][c]
  {
    if LineKey !in left.columns then Failure(MissingColumn(LineKey))
    else if ColorId !in left.columns && Operator !in left.columns then
      SuffixedJoinPlain(left, colors.rows);
      SuffixedJoin(left, colors.rows)
    else SuffixedJoin(left, colors.rows)
  }
}
