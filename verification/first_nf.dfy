/** First Normal Form (`to_first_nf`): every column in which some cell's
    string form holds `;` or `,` is split on those characters and exploded,
    one row per piece, with the pieces trimmed. */
module FirstNF {
  import opened Wrappers
  import opened Seqs
  import opened Text
  import opened Tables

  predicate IsSep(c: char) {
    c == ';' || c == ','
  }

  /** The pattern `[;,]` matches somewhere in `s`. */
  predicate HasSep(s: string) {
    ';' in s || ',' in s
  }

  /** Number of separator characters in `s`. */
  function SepCount(s: string): nat
    decreases |s|
  {
    if s == [] then 0 else (if IsSep(s[0]) then 1 else 0) + SepCount(s[1..])
  }

  /** `s` with its separator characters deleted. */
  function DropSeps(s: string): string
    decreases |s|
  {
    if s == [] then [] else (if IsSep(s[0]) then [] else [s[0]]) + DropSeps(s[1..])
  }

  /** `re.split(r"[;,]", s)`: the pieces between single separator characters,
      empty pieces included. There is one piece more than there are
      separators, no piece holds a separator, and the pieces put back
      together give `s` without its separators. */
  function SplitSeps(s: string): (ps: seq<string>)
    ensures |ps| == 1 + SepCount(s)
    decreases |s|
  {
    if s == [] then [""]
    else
      var rest := SplitSeps(s[1..]);
      if IsSep(s[0]) then [""] + rest else [[s[0]] + rest[0]] + rest[1..]
  }

  /** No piece holds a separator, and the pieces put back together give `s`
      without its separators. */
  lemma {:induction false} SplitSepsSpec(s: string)
    ensures forall k :: 0 <= k < |SplitSeps(s)| ==> !HasSep(SplitSeps(s)[k])
    ensures Flatten(SplitSeps(s)) == DropSeps(s)
    decreases |s|
  {
    if s != [] {
      var rest := SplitSeps(s[1..]);
      SplitSepsSpec(s[1..]);
      if IsSep(s[0]) {
        assert ([""] + rest)[1..] == rest;
      } else {
        var ps := [[s[0]] + rest[0]] + rest[1..];
        assert ps[1..] == rest[1..];
        assert Flatten(rest) == rest[0] + Flatten(rest[1..]);
        assert !HasSep([s[0]] + rest[0]) by {
          assert forall c :: c in [s[0]] + rest[0] ==> c == s[0] || c in rest[0];
        }
        assert forall k :: 1 <= k < |ps| ==> ps[k] == rest[k];
      }
    }
  }

  /** Without a separator a string is its own single piece. */
  lemma {:induction false} SplitWithoutSep(s: string)
    requires !HasSep(s)
    ensures SplitSeps(s) == [s]
    decreases |s|
  {
    SplitSepsSpec(s);
    if s != [] {
      assert !HasSep(s[1..]) by {
        assert forall c :: c in s[1..] ==> c in s;
      }
      SplitWithoutSep(s[1..]);
      assert [s[0]] + s[1..] == s;
    }
  }

  /** Empty pieces are kept: "a,,b" gives three pieces. */
  lemma EmptyPiecesKept()
    ensures SplitSeps("a,,b") == ["a", "", "b"]
  {
    assert SplitSeps("") == [""];
    SplitWithoutSep("b");
    assert SplitSeps(",b") == ["", "b"] by { assert ",b"[0] == ',' && ",b"[1..] == "b"; }
    assert SplitSeps(",,b") == ["", "", "b"] by { assert ",,b"[0] == ',' && ",,b"[1..] == ",b"; }
    assert "a,,b"[0] == 'a' && "a,,b"[1..] == ",,b";
    assert ['a'] + "" == "a";
  }

  /** The cell a piece becomes: `astype(str).str.strip()` after the explode. */
  function PieceCell(p: string): Cell {
    Some(Trim(p))
  }

  /** Trimming a separator-free piece leaves it separator-free. */
  lemma PieceCellClean(p: string)
    requires !HasSep(p)
    ensures !HasSep(PieceCell(p).value)
  {
    if ';' in Trim(p) { TrimChars(p, ';'); }
    if ',' in Trim(p) { TrimChars(p, ','); }
  }

  /** `explode` of one row on column `k`: one copy of the row per piece of
      the cell's string form, in piece order. */
  function ExplodeRow(r: Row, k: nat): (es: seq<Row>)
    ensures |es| >= 1
  {
    if k < |r| then PieceRows(r, k, SplitSeps(Str(r[k]))) else [r]
  }

  /** What exploding one row does: each copy has the row's width and keeps
      every other cell, and on a column of the row there is one copy per
      piece, holding that piece trimmed. */
  lemma ExplodeRowFacts(r: Row, k: nat)
    ensures forall i :: 0 <= i < |ExplodeRow(r, k)| ==> |ExplodeRow(r, k)[i]| == |r|
    ensures forall i, j :: 0 <= i < |ExplodeRow(r, k)| && 0 <= j < |r| && j != k ==> ExplodeRow(r, k)[i][j] == r[j]
    ensures k < |r| ==> |ExplodeRow(r, k)| == 1 + SepCount(Str(r[k]))
    ensures k < |r| ==> forall i :: 0 <= i < |ExplodeRow(r, k)| ==>
              ExplodeRow(r, k)[i][k] == PieceCell(SplitSeps(Str(r[k]))[i])
  {
    if k < |r| {
      var ps := SplitSeps(Str(r[k]));
      forall i | 0 <= i < |ps| ensures PieceRows(r, k, ps)[i] == r[k := PieceCell(ps[i])] {
        PieceRowsAt(r, k, ps, i);
      }
    }
  }

  /** One copy of `r` per piece, with the piece in cell `k`. */
  function PieceRows(r: Row, k: nat, ps: seq<string>): (es: seq<Row>)
    requires k < |r|
    ensures |es| == |ps|
    decreases |ps|
  {
    if ps == [] then [] else [r[k := PieceCell(ps[0])]] + PieceRows(r, k, ps[1..])
  }

  lemma {:induction false} PieceRowsAt(r: Row, k: nat, ps: seq<string>, i: nat)
    requires k < |r| && i < |ps|
    ensures PieceRows(r, k, ps)[i] == r[k := PieceCell(ps[i])]
    decreases |ps|
  {
    if i > 0 {
      PieceRowsAt(r, k, ps[1..], i - 1);
    }
  }

  /** Exploding column `k` of a whole row list, row by row. */
  function SplitColumn(rows: seq<Row>, k: nat): (out: seq<Row>)
    ensures |out| >= |rows|
    decreases |rows|
  {
    if rows == [] then [] else ExplodeRow(rows[0], k) + SplitColumn(rows[1..], k)
  }

  /** Every row of a row list has `w` cells. */
  predicate Width(rows: seq<Row>, w: nat) {
    forall i :: 0 <= i < |rows| ==> |rows[i]| == w
  }

  lemma WidthAppend(a: seq<Row>, b: seq<Row>, w: nat)
    requires Width(a, w) && Width(b, w)
    ensures Width(a + b, w)
  {
    forall i | 0 <= i < |a + b| ensures |(a + b)[i]| == w {
      if i < |a| {
        assert (a + b)[i] == a[i];
      } else {
        assert (a + b)[i] == b[i - |a|];
      }
    }
  }

  lemma {:induction false} SplitColumnWidth(rows: seq<Row>, k: nat, w: nat)
    requires Width(rows, w)
    ensures Width(SplitColumn(rows, k), w)
    decreases |rows|
  {
    if rows != [] {
      var e := ExplodeRow(rows[0], k);
      ExplodeRowWidth(rows[0], k);
      WidthTail(rows, w);
      SplitColumnWidth(rows[1..], k, w);
      WidthAppend(e, SplitColumn(rows[1..], k), w);
    }
  }


  lemma {:induction false} SplitColumnAppend(a: seq<Row>, b: seq<Row>, k: nat)
    ensures SplitColumn(a + b, k) == SplitColumn(a, k) + SplitColumn(b, k)
    decreases |a|
  {
    if a == [] {
      AppendEmpty(b);
    } else {
      ConsSplit(a, b);
      SplitColumnAppend(a[1..], b, k);
      AppendAssoc(ExplodeRow(a[0], k), SplitColumn(a[1..], k), SplitColumn(b, k));
    }
  }

  /** Some cell of column `k` has a separator in its string form
      (`astype(str).str.contains(r"[;,]").any()`); a missing cell prints as
      "nan" and never does. */
  predicate ColumnHasSep(rows: seq<Row>, k: nat)
    decreases |rows|
  {
    rows != [] && (SepAt(rows[0], k) || ColumnHasSep(rows[1..], k))
  }

  /** The separator test finds exactly the rows with a separator in column `k`. */
  lemma {:induction false} ColumnHasSepIff(rows: seq<Row>, k: nat)
    ensures ColumnHasSep(rows, k) <==> exists i :: 0 <= i < |rows| && SepAt(rows[i], k)
    decreases |rows|
  {
    if rows != [] {
      ColumnHasSepIff(rows[1..], k);
      if ColumnHasSep(rows[1..], k) {
        var i :| 0 <= i < |rows[1..]| && SepAt(rows[1..][i], k);
        assert rows[i + 1] == rows[1..][i];
      }
      if exists i :: 0 <= i < |rows| && SepAt(rows[i], k) {
        var i :| 0 <= i < |rows| && SepAt(rows[i], k);
        if i > 0 {
          assert rows[1..][i - 1] == rows[i];
        }
      }
    }
  }

  /** Cell `k` of `r` has a separator in its string form. */
  predicate SepAt(r: Row, k: nat) {
    k < |r| && HasSep(Str(r[k]))
  }

  function Line(c: string): string {
    "Splitting multi-valued column: " + c + "\n"
  }

  datatype FirstNFResult = FirstNFResult(table: Table, summary: string)

  /** What the loop of `to_first_nf` carries: the rows and the summary so far. */
  datatype LoopState = LoopState(rows: seq<Row>, summary: string)

  /** The loop of `to_first_nf` after its first `k` columns, taken in
      column order. */
  function LoopAfter(t: Table, k: nat): LoopState
    decreases k
  {
    if k == 0 then LoopState(t.rows, "") else Turn(t, LoopAfter(t, k - 1), k - 1)
  }

  /** One turn of the loop body, on column `c`. */
  function Turn(t: Table, st: LoopState, c: nat): LoopState {
    if c < |t.columns| && ColumnHasSep(st.rows, c) then
      LoopState(SplitColumn(st.rows, c), st.summary + Line(t.columns[c]))
    else st
  }

  /** The columns below `k` that hold a separator in the input table, ascending. */
  function SplitColsBelow(t: Table, k: nat): (cs: seq<nat>)
    ensures |cs| <= k
  {
    if k == 0 then []
    else SplitColsBelow(t, k - 1) + (if ColumnHasSep(t.rows, k - 1) then [k - 1] else [])
  }

  /** The split columns below `k` are ascending, and a column is among them
      exactly when it holds a separator in the input table. */
  lemma {:induction false} SplitColsBelowSpec(t: Table, k: nat)
    ensures forall i :: 0 <= i < |SplitColsBelow(t, k)| ==> SplitColsBelow(t, k)[i] < k
    ensures forall i, j :: 0 <= i < j < |SplitColsBelow(t, k)| ==> SplitColsBelow(t, k)[i] < SplitColsBelow(t, k)[j]
    ensures forall j :: 0 <= j < k ==> (j in SplitColsBelow(t, k) <==> ColumnHasSep(t.rows, j))
    decreases k
  {
    if k > 0 {
      SplitColsBelowSpec(t, k - 1);
    }
  }


  /** The columns `to_first_nf` splits. */
  function SplitCols(t: Table): seq<nat> {
    SplitColsBelow(t, |t.columns|)
  }

  /** Reference semantics, row by row: one row exploded on the columns
      `cs`, in that order. */
  function ExplodeAll(r: Row, cs: seq<nat>): (es: seq<Row>)
    ensures |es| >= 1
    decreases |cs|
  {
    if cs == [] then [r] else SplitColumn(ExplodeAll(r, cs[..|cs| - 1]), cs[|cs| - 1])
  }

  lemma {:induction false} ExplodeAllWidth(r: Row, cs: seq<nat>)
    ensures Width(ExplodeAll(r, cs), |r|)
    decreases |cs|
  {
    if cs != [] {
      ExplodeAllWidth(r, cs[..|cs| - 1]);
      SplitColumnWidth(ExplodeAll(r, cs[..|cs| - 1]), cs[|cs| - 1], |r|);
    }
  }

  /** Reference semantics for a row list: each row's explosion, in row order. */
  function RowsFor(rows: seq<Row>, cs: seq<nat>): seq<Row>
    decreases |rows|
  {
    if rows == [] then [] else ExplodeAll(rows[0], cs) + RowsFor(rows[1..], cs)
  }

  lemma {:induction false} RowsForNone(rows: seq<Row>)
    ensures RowsFor(rows, []) == rows
    decreases |rows|
  {
    if rows != [] {
      RowsForNone(rows[1..]);
      assert [rows[0]] + rows[1..] == rows;
    }
  }

  /** Exploding one more column of the reference rows is the reference for
      one more column. */
  lemma {:induction false} SplitColumnRowsFor(rows: seq<Row>, cs: seq<nat>, k: nat)
    ensures SplitColumn(RowsFor(rows, cs), k) == RowsFor(rows, cs + [k])
    decreases |rows|
  {
    if rows != [] {
      SplitColumnAppend(ExplodeAll(rows[0], cs), RowsFor(rows[1..], cs), k);
      SplitColumnRowsFor(rows[1..], cs, k);
      assert (cs + [k])[..|cs|] == cs;
    }
  }

  /** Column `j` holds the cell `v` in every row. */
  predicate ColIs(rows: seq<Row>, j: nat, v: Cell) {
    forall i :: 0 <= i < |rows| ==> j < |rows[i]| && rows[i][j] == v
  }

  /** Column `j` holds a separator-free value in every row. */
  predicate ColClean(rows: seq<Row>, j: nat) {
    forall i :: 0 <= i < |rows| ==> j < |rows[i]| && rows[i][j].Some? && !HasSep(rows[i][j].value)
  }

  lemma ColCleanAppend(a: seq<Row>, b: seq<Row>, j: nat)
    requires ColClean(a, j) && ColClean(b, j)
    ensures ColClean(a + b, j)
  {
    forall i | 0 <= i < |a + b| ensures j < |(a + b)[i]| && (a + b)[i][j].Some? && !HasSep((a + b)[i][j].value) {
      if i < |a| {
        assert (a + b)[i] == a[i];
      } else {
        assert (a + b)[i] == b[i - |a|];
      }
    }
  }

  lemma ColIsAppend(a: seq<Row>, b: seq<Row>, j: nat, v: Cell)
    requires ColIs(a, j, v) && ColIs(b, j, v)
    ensures ColIs(a + b, j, v)
  {
    forall i | 0 <= i < |a + b| ensures j < |(a + b)[i]| && (a + b)[i][j] == v {
      if i < |a| {
        assert (a + b)[i] == a[i];
      } else {
        assert (a + b)[i] == b[i - |a|];
      }
    }
  }

  /** Exploding one row on column `k` keeps every other cell in each copy. */
  lemma ExplodeRowKeeps(r: Row, k: nat, j: nat)
    requires j != k && j < |r|
    ensures ColIs(ExplodeRow(r, k), j, r[j])
  {
    ExplodeRowFacts(r, k);
  }

  lemma ExplodeRowWidth(r: Row, k: nat)
    ensures Width(ExplodeRow(r, k), |r|)
  {
    ExplodeRowFacts(r, k);
  }

  lemma ExplodeRowCount(r: Row, k: nat)
    requires k < |r|
    ensures |ExplodeRow(r, k)| == 1 + SepCount(Str(r[k]))
  {
    ExplodeRowFacts(r, k);
  }

  /** Every copy holds a trimmed, separator-free piece in the exploded column. */
  lemma ExplodeRowCleans(r: Row, k: nat)
    requires k < |r|
    ensures ColClean(ExplodeRow(r, k), k)
  {
    var e: seq<Row> := ExplodeRow(r, k);
    var ps := SplitSeps(Str(r[k]));
    ExplodeRowFacts(r, k);
    SplitSepsSpec(Str(r[k]));
    forall i | 0 <= i < |e| ensures k < |e[i]| && e[i][k].Some? && !HasSep(e[i][k].value) {
      PieceCellClean(ps[i]);
    }
  }

  lemma ColIsClean(rows: seq<Row>, j: nat, v: Cell)
    requires ColIs(rows, j, v) && v.Some? && !HasSep(v.value)
    ensures ColClean(rows, j)
  {
  }

  lemma ColIsTail(rows: seq<Row>, j: nat, v: Cell)
    requires rows != [] && ColIs(rows, j, v)
    ensures ColIs(rows[1..], j, v) && j < |rows[0]| && rows[0][j] == v
  {
    TailIndex(rows);
  }

  lemma ColCleanTail(rows: seq<Row>, j: nat)
    requires rows != [] && ColClean(rows, j)
    ensures ColClean(rows[1..], j) && j < |rows[0]| && rows[0][j].Some? && !HasSep(rows[0][j].value)
  {
    TailIndex(rows);
  }

  /** Every row has a column `j`. */
  predicate HasCol(rows: seq<Row>, j: nat) {
    forall i :: 0 <= i < |rows| ==> j < |rows[i]|
  }

  lemma HasColTail(rows: seq<Row>, j: nat)
    requires rows != [] && HasCol(rows, j)
    ensures HasCol(rows[1..], j) && j < |rows[0]|
  {
    TailIndex(rows);
  }

  lemma WidthTail(rows: seq<Row>, w: nat)
    requires rows != [] && Width(rows, w)
    ensures Width(rows[1..], w) && |rows[0]| == w
  {
    TailIndex(rows);
  }

  lemma {:induction false} SplitColumnKeeps(rows: seq<Row>, k: nat, j: nat, v: Cell)
    requires j != k && ColIs(rows, j, v)
    ensures ColIs(SplitColumn(rows, k), j, v)
    decreases |rows|
  {
    if rows != [] {
      var e := ExplodeRow(rows[0], k);
      ColIsTail(rows, j, v);
      ExplodeRowKeeps(rows[0], k, j);
      SplitColumnKeeps(rows[1..], k, j, v);
      ColIsAppend(e, SplitColumn(rows[1..], k), j, v);
    }
  }

  lemma {:induction false} SplitColumnKeepsClean(rows: seq<Row>, k: nat, j: nat)
    requires j != k && ColClean(rows, j)
    ensures ColClean(SplitColumn(rows, k), j)
    decreases |rows|
  {
    if rows != [] {
      var e := ExplodeRow(rows[0], k);
      ColCleanTail(rows, j);
      ExplodeRowKeeps(rows[0], k, j);
      ColIsClean(e, j, rows[0][j]);
      SplitColumnKeepsClean(rows[1..], k, j);
      ColCleanAppend(e, SplitColumn(rows[1..], k), j);
    }
  }

  lemma {:induction false} SplitColumnCleans(rows: seq<Row>, k: nat)
    requires HasCol(rows, k)
    ensures ColClean(SplitColumn(rows, k), k)
    decreases |rows|
  {
    if rows != [] {
      var e := ExplodeRow(rows[0], k);
      HasColTail(rows, k);
      ExplodeRowCleans(rows[0], k);
      SplitColumnCleans(rows[1..], k);
      ColCleanAppend(e, SplitColumn(rows[1..], k), k);
    }
  }

  /** Every row of an explosion keeps the original cell outside the
      exploded columns. */
  lemma {:induction false} ExplodeAllKeeps(r: Row, cs: seq<nat>, j: nat)
    requires j < |r| && j !in cs
    ensures ColIs(ExplodeAll(r, cs), j, r[j])
    decreases |cs|
  {
    if cs != [] {
      ExplodeAllKeeps(r, cs[..|cs| - 1], j);
      SplitColumnKeeps(ExplodeAll(r, cs[..|cs| - 1]), cs[|cs| - 1], j, r[j]);
    }
  }

  /** Every row of an explosion holds a trimmed, separator-free value in each
      exploded column. */
  lemma {:induction false} ExplodeAllCleans(r: Row, cs: seq<nat>, j: nat)
    requires forall i :: 0 <= i < |cs| ==> cs[i] < |r|
    requires j in cs
    ensures ColClean(ExplodeAll(r, cs), j)
    decreases |cs|
  {
    var init := cs[..|cs| - 1];
    var last := cs[|cs| - 1];
    var prev := ExplodeAll(r, init);
    ExplodeAllWidth(r, init);
    if j == last {
      SplitColumnCleans(prev, last);
    } else {
      assert j in init;
      ExplodeAllCleans(r, init, j);
      SplitColumnKeepsClean(prev, last, j);
    }
  }

  /** `cs` lists distinct column positions below `n`. */
  predicate Fresh(cs: seq<nat>, n: nat)
    decreases |cs|
  {
    cs == [] || (cs[|cs| - 1] < n && cs[|cs| - 1] !in cs[..|cs| - 1] && Fresh(cs[..|cs| - 1], n))
  }

  lemma {:induction false} SplitColsFresh(t: Table, k: nat, n: nat)
    requires k <= n
    ensures Fresh(SplitColsBelow(t, k), n)
    decreases k
  {
    if k > 0 {
      SplitColsFresh(t, k - 1, n);
      SplitColsBelowSpec(t, k - 1);
      var init := SplitColsBelow(t, k - 1);
      if ColumnHasSep(t.rows, k - 1) {
        SnocSplit(init, k - 1);
      } else {
        AppendEmpty(init);
      }
    }
  }

  /** Number of pieces cell `k` of row `r` splits into. */
  function Pieces(r: Row, k: nat): nat {
    if k < |r| then 1 + SepCount(Str(r[k])) else 1
  }

  /** `n * p` as repeated addition, which keeps the counting proofs linear. */
  function Times(n: nat, p: nat): nat {
    if n == 0 then 0 else p + Times(n - 1, p)
  }

  lemma {:induction false} TimesIsProduct(n: nat, p: nat)
    ensures Times(n, p) == n * p
  {
    if n > 0 {
      TimesIsProduct(n - 1, p);
    }
  }

  /** Product of the piece counts of `r` over the columns `cs`. */
  function PieceProduct(r: Row, cs: seq<nat>): nat
    decreases |cs|
  {
    if cs == [] then 1 else Times(PieceProduct(r, cs[..|cs| - 1]), Pieces(r, cs[|cs| - 1]))
  }

  /** Exploding a column that holds the same cell in every row multiplies
      the row count by that cell's piece count `n`. */
  lemma {:induction false} SplitColumnCount(rows: seq<Row>, k: nat, v: Cell, n: nat)
    requires ColIs(rows, k, v) && n == 1 + SepCount(Str(v))
    ensures |SplitColumn(rows, k)| == Times(|rows|, n)
    decreases |rows|
  {
    if rows != [] {
      SplitColumnLength(rows, k, v, n);
      SplitColumnCount(rows[1..], k, v, n);
      TimesStep(|SplitColumn(rows, k)|, |SplitColumn(rows[1..], k)|, |rows[1..]|, n);
    }
  }

  lemma TimesStep(a: nat, b: nat, m: nat, n: nat)
    requires a == n + b && b == Times(m, n)
    ensures a == Times(m + 1, n)
  {
  }

  lemma SplitColumnLength(rows: seq<Row>, k: nat, v: Cell, n: nat)
    requires rows != [] && ColIs(rows, k, v) && n == 1 + SepCount(Str(v))
    ensures ColIs(rows[1..], k, v)
    ensures |SplitColumn(rows, k)| == n + |SplitColumn(rows[1..], k)|
  {
    ColIsTail(rows, k, v);
    ExplodeRowCount(rows[0], k);
  }

  /** A row exploded on distinct columns yields the product of their piece
      counts. */
  lemma {:induction false} ExplodeAllCount(r: Row, cs: seq<nat>)
    requires Fresh(cs, |r|)
    ensures |ExplodeAll(r, cs)| == PieceProduct(r, cs)
    decreases |cs|
  {
    if cs != [] {
      var init := cs[..|cs| - 1];
      var last := cs[|cs| - 1];
      var prev := ExplodeAll(r, init);
      ExplodeAllCount(r, init);
      ExplodeAllKeeps(r, init, last);
      SplitColumnCount(prev, last, r[last], Pieces(r, last));
    }
  }

  /** Splitting a column leaves the separator test of every other column
      unchanged, since each row is copied at least once and only the split
      column changes. */
  lemma {:induction false} DetectionKept(rows: seq<Row>, cs: seq<nat>, j: nat)
    requires HasCol(rows, j)
    requires j !in cs
    ensures ColumnHasSep(RowsFor(rows, cs), j) == ColumnHasSep(rows, j)
    decreases |rows|
  {
    if rows != [] {
      var es := ExplodeAll(rows[0], cs);
      DetectionKept(rows[1..], cs, j);
      ExplodeAllKeeps(rows[0], cs, j);
      ColumnHasSepAppend(es, RowsFor(rows[1..], cs), j);
      assert ColumnHasSep(es, j) == SepAt(rows[0], j) by {
        assert es[0][j] == rows[0][j];
        ColumnHasSepIff(es, j);
        if ColumnHasSep(es, j) {
          var i :| 0 <= i < |es| && SepAt(es[i], j);
          assert es[i][j] == rows[0][j];
        }
      }
    }
  }

  lemma {:induction false} ColumnHasSepAppend(a: seq<Row>, b: seq<Row>, j: nat)
    ensures ColumnHasSep(a + b, j) == (ColumnHasSep(a, j) || ColumnHasSep(b, j))
    decreases |a|
  {
    if a == [] {
      AppendEmpty(b);
    } else {
      ConsSplit(a, b);
      ColumnHasSepAppend(a[1..], b, j);
    }
  }

  /** The summary lines for the columns `cs`, in order. */
  function SummaryFor(cols: seq<string>, cs: seq<nat>): string
    decreases |cs|
  {
    if cs == [] then "" else SummaryFor(cols, cs[..|cs| - 1]) + Line(NameAt(cols, cs[|cs| - 1]))
  }

  /** The name of column `c`; only ever asked for a column that exists. */
  function NameAt(cols: seq<string>, c: nat): string {
    if c < |cols| then cols[c] else ""
  }

  /** The loop state the invariant promises after the first `k` columns. */
  function Expected(t: Table, k: nat): LoopState {
    var cs := SplitColsBelow(t, k);
    LoopState(RowsFor(t.rows, cs), SummaryFor(t.columns, cs))
  }

  /** The invariant holds before the loop. */
  lemma LoopBase(t: Table)
    ensures LoopAfter(t, 0) == Expected(t, 0)
  {
    RowsForNone(t.rows);
  }

  /** The invariant survives a column that is split. */
  lemma LoopSplitStep(t: Table, k: nat)
    requires Wf(t) && 0 < k <= |t.columns|
    requires ColumnHasSep(t.rows, k - 1)
    ensures Turn(t, Expected(t, k - 1), k - 1) == Expected(t, k)
  {
    var j := k - 1;
    var cs := SplitColsBelow(t, j);
    SplitColsBelowSpec(t, j);
    DetectionKept(t.rows, cs, j);
    SplitColumnRowsFor(t.rows, cs, j);
    SummarySnoc(t.columns, cs, j);
  }

  /** One more split column adds its line at the end of the summary. */
  lemma SummarySnoc(cols: seq<string>, cs: seq<nat>, j: nat)
    requires j < |cols|
    ensures SummaryFor(cols, cs + [j]) == SummaryFor(cols, cs) + Line(cols[j])
  {
    SnocSplit(cs, j);
  }


  /** The invariant survives a column that is left alone. */
  lemma LoopSkipStep(t: Table, k: nat)
    requires Wf(t) && 0 < k <= |t.columns|
    requires !ColumnHasSep(t.rows, k - 1)
    ensures Turn(t, Expected(t, k - 1), k - 1) == Expected(t, k)
  {
    var j := k - 1;
    SplitColsBelowSpec(t, j);
    DetectionKept(t.rows, SplitColsBelow(t, j), j);
    AppendEmpty(SplitColsBelow(t, j));
  }

  /** Invariant of the column loop: after the first `k` columns, the rows
      are the row-by-row explosion on the columns split so far, and the
      summary names those columns. */
  lemma {:induction false} LoopInvariant(t: Table, k: nat)
    requires Wf(t) && k <= |t.columns|
    ensures LoopAfter(t, k) == Expected(t, k)
    decreases k
  {
    if k == 0 {
      LoopBase(t);
    } else {
      LoopInvariant(t, k - 1);
      LoopKeeps(t, k);
    }
  }

  /** The invariant after `k - 1` columns gives it after `k`. */
  lemma LoopKeeps(t: Table, k: nat)
    requires Wf(t) && 0 < k <= |t.columns|
    requires LoopAfter(t, k - 1) == Expected(t, k - 1)
    ensures LoopAfter(t, k) == Expected(t, k)
  {
    LoopStep(t, k);
  }

  /** The invariant survives one turn of the loop. */
  lemma LoopStep(t: Table, k: nat)
    requires Wf(t) && 0 < k <= |t.columns|
    ensures Turn(t, Expected(t, k - 1), k - 1) == Expected(t, k)
  {
    if ColumnHasSep(t.rows, k - 1) {
      LoopSplitStep(t, k);
    } else {
      LoopSkipStep(t, k);
    }
  }


  /** `to_first_nf(df)`: the columns are unchanged; the rows are each input
      row exploded on the split columns, in row order, with exploded rows
      adjacent; the summary holds one line per split column, in column order,
      and is empty exactly when nothing was split. */
  function ToFirstNF(t: Table): (res: FirstNFResult)
    requires Wf(t)
    ensures res.table.columns == t.columns
    ensures res.table.rows == RowsFor(t.rows, SplitCols(t))
    ensures res.summary == SummaryFor(t.columns, SplitCols(t))
    ensures res.summary == "" <==> SplitCols(t) == []
  {
    LoopInvariant(t, |t.columns|);
    SummaryEmpty(t.columns, SplitCols(t));
    var st := LoopAfter(t, |t.columns|);
    FirstNFResult(Table(t.columns, st.rows), st.summary)
  }

  lemma SummaryEmpty(cols: seq<string>, cs: seq<nat>)
    ensures SummaryFor(cols, cs) == "" <==> cs == []
  {
    if cs != [] {
      assert |SummaryFor(cols, cs)| >= |Line(NameAt(cols, cs[|cs| - 1]))|;
    }
  }

  /** Row count: each input row contributes the product, over the split
      columns, of its cell's piece count. */
  lemma {:induction false} RowCount(rows: seq<Row>, cs: seq<nat>, n: nat)
    requires Fresh(cs, n) && Width(rows, n)
    ensures |RowsFor(rows, cs)| == Sum(seq(|rows|, i requires 0 <= i < |rows| => PieceProduct(rows[i], cs)))
    decreases |rows|
  {
    if rows != [] {
      ExplodeAllCount(rows[0], cs);
      RowCount(rows[1..], cs, n);
      var counts := seq(|rows|, i requires 0 <= i < |rows| => PieceProduct(rows[i], cs));
      assert counts[1..] == seq(|rows[1..]|, i requires 0 <= i < |rows[1..]| => PieceProduct(rows[1..][i], cs));
      assert counts[0] == PieceProduct(rows[0], cs);
    }
  }

  /** Every output row comes from one input row and agrees with it on every
      column that was not split. */
  lemma {:induction false} UnsplitColumnsCopied(rows: seq<Row>, cs: seq<nat>, j: nat)
    requires HasCol(rows, j)
    requires j !in cs
    ensures forall o :: o in RowsFor(rows, cs) ==> exists i :: 0 <= i < |rows| && j < |o| && o[j] == rows[i][j]
    decreases |rows|
  {
    if rows != [] {
      UnsplitColumnsCopied(rows[1..], cs, j);
      ExplodeAllKeeps(rows[0], cs, j);
      forall o | o in RowsFor(rows, cs) ensures exists i :: 0 <= i < |rows| && j < |o| && o[j] == rows[i][j] {
        if o in ExplodeAll(rows[0], cs) {
          assert o[j] == rows[0][j];
        } else {
          assert o in RowsFor(rows[1..], cs);
          var i :| 0 <= i < |rows[1..]| && j < |o| && o[j] == rows[1..][i][j];
          assert o[j] == rows[i + 1][j];
        }
      }
    }
  }

  /** No cell of the 1NF table holds a separator. */
  lemma NoSeparatorLeft(t: Table, j: nat)
    requires Wf(t) && j < |t.columns|
    ensures !ColumnHasSep(ToFirstNF(t).table.rows, j)
  {
    var cs := SplitCols(t);
    SplitColsBelowSpec(t, |t.columns|);
    if j in cs {
      CleanRows(t.rows, cs, j);
      CleanNoSep(RowsFor(t.rows, cs), j);
    } else {
      DetectionKept(t.rows, cs, j);
    }
  }

  /** A column whose cells are all separator-free has no separator. */
  lemma {:induction false} CleanNoSep(rows: seq<Row>, j: nat)
    requires ColClean(rows, j)
    ensures !ColumnHasSep(rows, j)
    decreases |rows|
  {
    if rows != [] {
      ColCleanTail(rows, j);
      CleanNoSep(rows[1..], j);
    }
  }

  lemma {:induction false} CleanRows(rows: seq<Row>, cs: seq<nat>, j: nat)
    requires j in cs
    requires forall i :: 0 <= i < |cs| ==> forall r :: r in rows ==> cs[i] < |r|
    ensures ColClean(RowsFor(rows, cs), j)
    decreases |rows|
  {
    if rows != [] {
      ExplodeAllCleans(rows[0], cs, j);
      CleanRows(rows[1..], cs, j);
    }
  }

  /** Without a separator anywhere, the loop changes nothing. */
  lemma {:induction false} LoopNoSep(t: Table, k: nat)
    requires forall j :: 0 <= j < k ==> !ColumnHasSep(t.rows, j)
    ensures LoopAfter(t, k) == LoopState(t.rows, "")
    decreases k
  {
    if k > 0 {
      LoopNoSep(t, k - 1);
    }
  }

  /** Idempotence: a table already in 1NF is left as it is, with an empty
      summary. */
  lemma Idempotent(t: Table)
    requires Wf(t)
    ensures Wf(ToFirstNF(t).table)
    ensures ToFirstNF(ToFirstNF(t).table) == FirstNFResult(ToFirstNF(t).table, "")
  {
    var out := ToFirstNF(t).table;
    assert Wf(out) by {
      ExplodedWidths(t.rows, SplitCols(t), |t.columns|);
    }
    forall j | 0 <= j < |t.columns| ensures !ColumnHasSep(out.rows, j) {
      NoSeparatorLeft(t, j);
    }
    LoopNoSep(out, |out.columns|);
  }

  lemma {:induction false} ExplodedWidths(rows: seq<Row>, cs: seq<nat>, n: nat)
    requires forall i :: 0 <= i < |rows| ==> |rows[i]| == n
    ensures forall i :: 0 <= i < |RowsFor(rows, cs)| ==> |RowsFor(rows, cs)[i]| == n
    decreases |rows|
  {
    if rows != [] {
      ExplodeAllWidth(rows[0], cs);
      ExplodedWidths(rows[1..], cs, n);
    }
  }
}
