/** The pandas DataFrame as the program uses it: named columns and rows of
    cells, where a cell is missing (NaN) or holds the value's string form. */
module Tables {
  import opened Wrappers
  import opened Seqs
  import opened Text

  /** `None` is a missing value (NaN); `Some(s)` a value whose string form is `s`. */
  type Cell = Option<string>
  type Row = seq<Cell>

  datatype Table = Table(columns: seq<string>, rows: seq<Row>)

  /** Column names are distinct and every row has one cell per column. */
  predicate Wf(t: Table) {
    && NoDup(t.columns)
    && forall i :: 0 <= i < |t.rows| ==> |t.rows[i]| == |t.columns|
  }

  /** pandas `astype(str)`: a missing value prints as "nan". */
  function Str(c: Cell): string {
    match c
    case None => "nan"
    case Some(s) => s
  }

  /** The cell of row `r` in column `c`. */
  function Get(t: Table, r: Row, c: string): Cell
    requires |r| == |t.columns| && c in t.columns
  {
    r[FirstIndex(t.columns, c)]
  }

  /** A cell holding a value that trims to `v`. */
  predicate TrimsTo(c: Cell, v: string) {
    c.Some? && Trim(c.value) == v
  }

  /** The cells of column `c`, top to bottom (`df[c]`). */
  function ColumnCells(t: Table, c: string): (cells: seq<Cell>)
    requires Wf(t) && c in t.columns
    ensures |cells| == |t.rows|
    ensures forall i :: 0 <= i < |t.rows| ==> cells[i] == Get(t, t.rows[i], c)
  {
    seq(|t.rows|, i requires 0 <= i < |t.rows| => Get(t, t.rows[i], c))
  }

  /** The values of a cell sequence with missing ones dropped (`dropna()`), in order. */
  function Present(cells: seq<Cell>): (vs: seq<string>)
    ensures |vs| <= |cells|
    ensures forall i :: 0 <= i < |cells| && cells[i].Some? ==> cells[i].value in vs
    ensures forall k :: 0 <= k < |vs| ==> Some(vs[k]) in cells
    decreases |cells|
  {
    if cells == [] then []
    else (if cells[0].Some? then [cells[0].value] else []) + Present(cells[1..])
  }

  /** Dropping missing values distributes over concatenation. */
  lemma {:induction false} PresentAppend(a: seq<Cell>, b: seq<Cell>)
    ensures Present(a + b) == Present(a) + Present(b)
    decreases |a|
  {
    if a == [] {
      assert a + b == b;
    } else {
      assert (a + b)[1..] == a[1..] + b;
      PresentAppend(a[1..], b);
    }
  }

  /** Cells that are all missing leave nothing. */
  lemma PresentNone(cells: seq<Cell>)
    requires forall i :: 0 <= i < |cells| ==> cells[i].None?
    ensures Present(cells) == []
  {
  }

  /** Cells that are all present give back their values. */
  lemma {:induction false} PresentAll(cells: seq<Cell>, vs: seq<string>)
    requires |cells| == |vs| && forall i :: 0 <= i < |vs| ==> cells[i] == Some(vs[i])
    ensures Present(cells) == vs
    decreases |vs|
  {
    if vs != [] {
      PresentAll(cells[1..], vs[1..]);
      assert [vs[0]] + vs[1..] == vs;
    }
  }

  /** Missing cells followed by present ones give back the present values. */
  lemma PresentAfterMissing(cells: seq<Cell>, n: nat, vs: seq<string>)
    requires |cells| == n + |vs|
    requires forall i :: 0 <= i < n ==> cells[i].None?
    requires forall j :: 0 <= j < |vs| ==> cells[n + j] == Some(vs[j])
    ensures Present(cells) == vs
  {
    assert cells == cells[..n] + cells[n..];
    PresentAppend(cells[..n], cells[n..]);
    PresentNone(cells[..n]);
    PresentAll(cells[n..], vs);
  }

  /** Cells extended by missing ones keep their present values. */
  lemma PresentThenMissing(cells: seq<Cell>, front: seq<Cell>)
    requires |front| <= |cells|
    requires forall i :: 0 <= i < |front| ==> cells[i] == front[i]
    requires forall i :: |front| <= i < |cells| ==> cells[i].None?
    ensures Present(cells) == Present(front)
  {
    var n := |front|;
    assert cells == front + cells[n..];
    PresentAppend(front, cells[n..]);
    PresentNone(cells[n..]);
  }

  /** `df[cols]`: the projection of every row onto `cols`, in that order. */
  function Project(t: Table, cols: seq<string>): (p: Table)
    requires Wf(t) && forall k :: 0 <= k < |cols| ==> cols[k] in t.columns
    ensures p.columns == cols && |p.rows| == |t.rows|
    ensures forall i :: 0 <= i < |p.rows| ==> |p.rows[i]| == |cols|
    ensures forall i, k :: 0 <= i < |t.rows| && 0 <= k < |cols| ==> p.rows[i][k] == Get(t, t.rows[i], cols[k])
    ensures NoDup(cols) ==> Wf(p)
  {
    Table(cols, seq(|t.rows|, i requires 0 <= i < |t.rows| =>
      seq(|cols|, k requires 0 <= k < |cols| => Get(t, t.rows[i], cols[k]))))
  }

  /** `drop_duplicates()`: identical rows (missing equal to missing) kept once, at their first position. */
  function DropDuplicates(t: Table): (d: Table)
    requires Wf(t)
    ensures Wf(d) && d.columns == t.columns
    ensures NoDup(d.rows) && |d.rows| <= |t.rows|
    ensures forall i :: 0 <= i < |d.rows| ==> d.rows[i] in t.rows
    ensures forall i :: 0 <= i < |t.rows| ==> t.rows[i] in d.rows
  {
    var rs := Distinct(t.rows);
    assert forall i :: 0 <= i < |rs| ==> |rs[i]| == |t.columns| by {
      forall i | 0 <= i < |rs| ensures |rs[i]| == |t.columns| {
        var j := FirstIndex(t.rows, rs[i]);
        assert |t.rows[j]| == |t.columns|;
      }
    }
    Table(t.columns, rs)
  }

  /** Number of missing cells in one row. */
  function MissingInRow(r: Row): (n: nat)
    ensures n <= |r|
    ensures n == 0 <==> forall k :: 0 <= k < |r| ==> r[k].Some?
    decreases |r|
  {
    if r == [] then 0 else (if r[0].None? then 1 else 0) + MissingInRow(r[1..])
  }

  /** `df.isnull().sum().sum()`: number of missing cells in the table. */
  function MissingCount(rows: seq<Row>): (n: nat)
    ensures n == 0 <==> forall i, k :: 0 <= i < |rows| && 0 <= k < |rows[i]| ==> rows[i][k].Some?
    decreases |rows|
  {
    if rows == [] then 0
    else
      var n := MissingInRow(rows[0]) + MissingCount(rows[1..]);
      assert forall i :: 1 <= i < |rows| ==> rows[i] == rows[1..][i - 1];
      n
  }
}
