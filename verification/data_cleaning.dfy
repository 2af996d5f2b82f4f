/** The cleaning stage (`clean_data`): names are normalised, columns sharing
    a root are merged into one column whose values are appended as new rows,
    text columns are trimmed, duplicate rows dropped, and missing values
    dropped or filled, with a report of what was done. */
module DataCleaning {
  import opened Wrappers
  import opened Seqs
  import opened Text
  import opened Tables
  import opened ColumnRoots
  import opened Grouping

  // ---------------------------------------------------------------------
  // Merging one root group
  // ---------------------------------------------------------------------

  /** `.str.strip()` on every value, then `stacked[stacked != ""]`. */
  function StripNonEmpty(vs: seq<string>): (ws: seq<string>)
    ensures |ws| <= |vs|
    decreases |vs|
  {
    if vs == [] then []
    else (if Trim(vs[0]) != "" then [Trim(vs[0])] else []) + StripNonEmpty(vs[1..])
  }

  /** A kept value is the non-empty trimming of an input value, and every
      input value whose trimming is non-empty is kept. */
  lemma {:induction false} StripNonEmptyMember(vs: seq<string>, w: string)
    ensures w in StripNonEmpty(vs) <==> w != "" && exists k :: 0 <= k < |vs| && Trim(vs[k]) == w
    decreases |vs|
  {
    if vs != [] {
      var head: seq<string> := if Trim(vs[0]) != "" then [Trim(vs[0])] else [];
      StripNonEmptyMember(vs[1..], w);
      InAppend(head, StripNonEmpty(vs[1..]), w);
      if exists k :: 0 <= k < |vs[1..]| && Trim(vs[1..][k]) == w {
        var k :| 0 <= k < |vs[1..]| && Trim(vs[1..][k]) == w;
        assert Trim(vs[k + 1]) == w;
      }
      if exists k :: 0 <= k < |vs| && Trim(vs[k]) == w {
        var k :| 0 <= k < |vs| && Trim(vs[k]) == w;
        if k > 0 {
          assert Trim(vs[1..][k - 1]) == w;
        }
      }
    }
  }

  /** Some cell of one of the columns `ms` trims to `v`. */
  predicate FromMembers(t: Table, ms: seq<string>, v: string)
    requires Wf(t) && forall k :: 0 <= k < |ms| ==> ms[k] in t.columns
  {
    exists k, i :: 0 <= k < |ms| && 0 <= i < |t.rows| && TrimsTo(Get(t, t.rows[i], ms[k]), v)
  }

  /** `stacked`: for each member in column order, its non-missing cells top to
      bottom, trimmed, with empty results dropped. */
  function Stacked(t: Table, ms: seq<string>): (vs: seq<string>)
    requires Wf(t) && forall k :: 0 <= k < |ms| ==> ms[k] in t.columns
    decreases |ms|
  {
    if ms == [] then [] else StripNonEmpty(Present(ColumnCells(t, ms[0]))) + Stacked(t, ms[1..])
  }

  /** A present value maps to `v` under `f` exactly when the value of some
      non-missing cell does. */
  lemma PresentMaps(cells: seq<Cell>, f: string -> string, v: string)
    ensures (exists k :: 0 <= k < |Present(cells)| && f(Present(cells)[k]) == v) <==>
            (exists i :: 0 <= i < |cells| && cells[i].Some? && f(cells[i].value) == v)
  {
    var vs := Present(cells);
    if exists k :: 0 <= k < |vs| && f(vs[k]) == v {
      var k :| 0 <= k < |vs| && f(vs[k]) == v;
      assert Some(vs[k]) in cells;
      var i :| 0 <= i < |cells| && cells[i] == Some(vs[k]);
      assert 0 <= i < |cells| && cells[i].Some? && f(cells[i].value) == v;
    }
    if exists i :: 0 <= i < |cells| && cells[i].Some? && f(cells[i].value) == v {
      var i :| 0 <= i < |cells| && cells[i].Some? && f(cells[i].value) == v;
      assert cells[i].value in vs;
      var k :| 0 <= k < |vs| && vs[k] == cells[i].value;
      assert 0 <= k < |Present(cells)| && f(Present(cells)[k]) == v;
    }
  }

  /** The non-empty trimmed values of one column. */
  lemma ColumnValues(t: Table, c: string, v: string)
    requires Wf(t) && c in t.columns
    ensures v in StripNonEmpty(Present(ColumnCells(t, c))) <==>
      v != "" && exists i :: 0 <= i < |t.rows| && TrimsTo(Get(t, t.rows[i], c), v)
  {
    var cells := ColumnCells(t, c);
    StripNonEmptyMember(Present(cells), v);
    PresentMaps(cells, Trim, v);
    assert forall i :: 0 <= i < |t.rows| ==> cells[i] == Get(t, t.rows[i], c);
  }

  /** The merged values are exactly the non-empty trimmed values found in
      the group's columns. */
  lemma {:induction false} StackedValues(t: Table, ms: seq<string>, v: string)
    requires Wf(t) && forall k :: 0 <= k < |ms| ==> ms[k] in t.columns
    ensures v in Stacked(t, ms) <==> v != "" && FromMembers(t, ms, v)
    decreases |ms|
  {
    if ms != [] {
      StackedValues(t, ms[1..], v);
      ColumnValues(t, ms[0], v);
      InAppend(StripNonEmpty(Present(ColumnCells(t, ms[0]))), Stacked(t, ms[1..]), v);
      FromMembersCons(t, ms, v);
    }
  }

  /** A value comes from the members exactly when it comes from the first
      member or from the others. */
  lemma FromMembersCons(t: Table, ms: seq<string>, v: string)
    requires Wf(t) && ms != [] && forall k :: 0 <= k < |ms| ==> ms[k] in t.columns
    ensures FromMembers(t, ms, v) <==>
      (exists i :: 0 <= i < |t.rows| && TrimsTo(Get(t, t.rows[i], ms[0]), v)) || FromMembers(t, ms[1..], v)
  {
    var tail := ms[1..];
    if FromMembers(t, tail, v) {
      var k, i :| 0 <= k < |tail| && 0 <= i < |t.rows| && TrimsTo(Get(t, t.rows[i], tail[k]), v);
      assert tail[k] == ms[k + 1];
    }
    if FromMembers(t, ms, v) {
      var k, i :| 0 <= k < |ms| && 0 <= i < |t.rows| && TrimsTo(Get(t, t.rows[i], ms[k]), v);
      if k > 0 {
        assert tail[k - 1] == ms[k];
      }
    }
  }

  /** The columns of `cols` that are not in `ms`, in order (`df.drop(columns=ms)`). */
  function Without(cols: seq<string>, ms: seq<string>): (ks: seq<string>)
    ensures forall c :: c in ks <==> c in cols && c !in ms
    ensures NoDup(cols) ==> NoDup(ks)
    decreases |cols|
  {
    if cols == [] then []
    else
      var rest := Without(cols[1..], ms);
      MemberCons(cols);
      if cols[0] in ms then rest
      else
        assert NoDup(cols) ==> cols[0] !in cols[1..];
        assert NoDup(cols) ==> NoDup([cols[0]] + rest);
        [cols[0]] + rest
  }

  /** A row appended by the merge: the value under `r`, missing elsewhere. */
  function NewRow(cols: seq<string>, r: string, v: string): (row: Row)
    ensures |row| == |cols|
  {
    seq(|cols|, k requires 0 <= k < |cols| => if cols[k] == r then Some(v) else None)
  }

  function NewRows(cols: seq<string>, r: string, vs: seq<string>): (rows: seq<Row>)
    ensures |rows| == |vs|
    ensures forall j :: 0 <= j < |vs| ==> rows[j] == NewRow(cols, r, vs[j])
  {
    seq(|vs|, j requires 0 <= j < |vs| => NewRow(cols, r, vs[j]))
  }

  /** Existing rows gain a missing cell for a column added at the end. */
  function PadRows(rows: seq<Row>): (ps: seq<Row>)
    ensures |ps| == |rows|
    ensures forall i :: 0 <= i < |rows| ==> ps[i] == rows[i] + [None]
  {
    seq(|rows|, i requires 0 <= i < |rows| => rows[i] + [None])
  }

  /** One merge step: the group's columns are dropped and a one-column frame
      named `r` holding the stacked values is concatenated below. pandas
      aligns by name, so when a column `r` survives the drop the values land
      in it; otherwise `r` is added as the last column. */
  function MergeGroup(t: Table, r: string, ms: seq<string>): (m: Table)
    requires Wf(t) && forall k :: 0 <= k < |ms| ==> ms[k] in t.columns
    ensures Wf(m)
    ensures forall c :: c in m.columns <==> c == r || (c in t.columns && c !in ms)
    ensures |m.rows| == |t.rows| + |Stacked(t, ms)|
  {
    var vals := Stacked(t, ms);
    var kept := Without(t.columns, ms);
    var p := Project(t, kept);
    if r in kept then
      Table(kept, p.rows + NewRows(kept, r, vals))
    else
      var cols := kept + [r];
      assert NoDup(cols) by {
        NoDupAppend(kept, [r]);
      }
      Table(cols, PadRows(p.rows) + NewRows(cols, r, vals))
  }

  /** A column outside the group keeps its cells in the existing rows. */
  lemma MergeGroupOldRows(t: Table, r: string, ms: seq<string>, i: nat, c: string)
    requires Wf(t) && forall k :: 0 <= k < |ms| ==> ms[k] in t.columns
    requires i < |t.rows| && c in t.columns && c !in ms
    ensures Get(MergeGroup(t, r, ms), MergeGroup(t, r, ms).rows[i], c) == Get(t, t.rows[i], c)
  {
    var kept := Without(t.columns, ms);
    var p := Project(t, kept);
    var k := FirstIndex(kept, c);
    assert p.rows[i][k] == Get(t, t.rows[i], c);
    if r !in kept {
      var cols := kept + [r];
      assert cols[..|kept|] == kept;
      FirstIndexPrefix(cols, |kept|, c);
    }
  }

  /** When the root is a new column, the existing rows are missing in it. */
  lemma MergeGroupOldRowsRoot(t: Table, r: string, ms: seq<string>, i: nat)
    requires Wf(t) && forall k :: 0 <= k < |ms| ==> ms[k] in t.columns
    requires i < |t.rows| && (r !in t.columns || r in ms)
    ensures Get(MergeGroup(t, r, ms), MergeGroup(t, r, ms).rows[i], r) == None
  {
    var kept := Without(t.columns, ms);
    var cols := kept + [r];
    assert FirstIndex(cols, r) == |kept|;
  }

  /** The cell of a new row under column `c`. */
  lemma NewRowGet(cols: seq<string>, r: string, v: string, c: string)
    requires c in cols
    ensures NewRow(cols, r, v)[FirstIndex(cols, c)] == if c == r then Some(v) else None
  {
  }

  /** The appended rows are the new rows built for the merged column list. */
  lemma MergeGroupTail(t: Table, r: string, ms: seq<string>, j: nat)
    requires Wf(t) && forall k :: 0 <= k < |ms| ==> ms[k] in t.columns
    requires j < |Stacked(t, ms)|
    ensures MergeGroup(t, r, ms).rows[|t.rows| + j] == NewRow(MergeGroup(t, r, ms).columns, r, Stacked(t, ms)[j])
  {
    var vals := Stacked(t, ms);
    var kept := Without(t.columns, ms);
    var p := Project(t, kept);
    if r in kept {
      assert (p.rows + NewRows(kept, r, vals))[|p.rows| + j] == NewRows(kept, r, vals)[j];
    } else {
      var cols := kept + [r];
      var ps := PadRows(p.rows);
      assert (ps + NewRows(cols, r, vals))[|ps| + j] == NewRows(cols, r, vals)[j];
    }
  }

  /** The appended rows carry the stacked values under `r`, in order, and
      are missing in every other column. */
  lemma MergeGroupNewRows(t: Table, r: string, ms: seq<string>, j: nat, c: string)
    requires Wf(t) && forall k :: 0 <= k < |ms| ==> ms[k] in t.columns
    requires j < |Stacked(t, ms)| && c in MergeGroup(t, r, ms).columns
    ensures Get(MergeGroup(t, r, ms), MergeGroup(t, r, ms).rows[|t.rows| + j], c)
         == if c == r then Some(Stacked(t, ms)[j]) else None
  {
    var m := MergeGroup(t, r, ms);
    MergeGroupTail(t, r, ms, j);
    NewRowGet(m.columns, r, Stacked(t, ms)[j], c);
  }

  /** In every row where column `r` holds a value, every other column is
      missing: the row was appended by the merge that produced `r`. */
  predicate OnlyValueIn(m: Table, r: string)
    requires Wf(m) && r in m.columns
  {
    forall i, c :: 0 <= i < |m.rows| && c in m.columns && c != r ==>
      Get(m, m.rows[i], r).Some? ==> Get(m, m.rows[i], c).None?
  }

  /** A column outside the group and other than the root keeps its values:
      the appended rows are missing in it. */
  lemma MergeGroupOtherColumn(t: Table, q: string, mq: seq<string>, c: string)
    requires Wf(t) && forall k :: 0 <= k < |mq| ==> mq[k] in t.columns
    requires c in t.columns && c !in mq && c != q
    ensures c in MergeGroup(t, q, mq).columns
    ensures Present(ColumnCells(MergeGroup(t, q, mq), c)) == Present(ColumnCells(t, c))
  {
    var m := MergeGroup(t, q, mq);
    var n := |t.rows|;
    var a := ColumnCells(m, c);
    var b := ColumnCells(t, c);
    forall i | 0 <= i < n ensures a[i] == b[i] {
      MergeGroupOldRows(t, q, mq, i, c);
    }
    forall i | n <= i < |a| ensures a[i].None? {
      MergeGroupNewRows(t, q, mq, i - n, c);
    }
    PresentThenMissing(a, b);
  }

  /** A merge leaves a column that had values only in rows of its own as it
      was, provided the column is outside the group and not the root. */
  lemma MergeGroupKeepsOnly(t: Table, q: string, mq: seq<string>, r: string)
    requires Wf(t) && forall k :: 0 <= k < |mq| ==> mq[k] in t.columns
    requires r in t.columns && r !in mq && r != q && OnlyValueIn(t, r)
    ensures r in MergeGroup(t, q, mq).columns && OnlyValueIn(MergeGroup(t, q, mq), r)
  {
    var m := MergeGroup(t, q, mq);
    var n := |t.rows|;
    forall i, c | 0 <= i < |m.rows| && c in m.columns && c != r
      ensures Get(m, m.rows[i], r).Some? ==> Get(m, m.rows[i], c).None?
    {
      if i < n {
        MergeGroupOldRows(t, q, mq, i, r);
        if c in t.columns && c !in mq {
          MergeGroupOldRows(t, q, mq, i, c);
        } else {
          MergeGroupOldRowsRoot(t, q, mq, i);
        }
      } else {
        MergeGroupNewRows(t, q, mq, i - n, r);
      }
    }
  }

  /** When the root is not a column outside the group, the merged column
      reads back the stacked values, in order, and nothing else. */
  lemma MergeGroupRootPresent(t: Table, r: string, ms: seq<string>)
    requires Wf(t) && forall k :: 0 <= k < |ms| ==> ms[k] in t.columns
    requires r in t.columns ==> r in ms
    ensures r in MergeGroup(t, r, ms).columns
    ensures Present(ColumnCells(MergeGroup(t, r, ms), r)) == Stacked(t, ms)
  {
    var m := MergeGroup(t, r, ms);
    var n := |t.rows|;
    var vals := Stacked(t, ms);
    var a := ColumnCells(m, r);
    forall i | 0 <= i < n ensures a[i].None? {
      MergeGroupOldRowsRoot(t, r, ms, i);
    }
    forall j | 0 <= j < |vals| ensures a[n + j] == Some(vals[j]) {
      MergeGroupNewRows(t, r, ms, j, r);
    }
    PresentAfterMissing(a, n, vals);
  }

  /** In the merged frame, a row with a value under the root is an appended
      row, and is missing everywhere else. */
  lemma MergeGroupRootOnly(t: Table, r: string, ms: seq<string>)
    requires Wf(t) && forall k :: 0 <= k < |ms| ==> ms[k] in t.columns
    requires r in t.columns ==> r in ms
    ensures r in MergeGroup(t, r, ms).columns
    ensures forall i :: 0 <= i < |t.rows| ==> Get(MergeGroup(t, r, ms), MergeGroup(t, r, ms).rows[i], r) == None
    ensures OnlyValueIn(MergeGroup(t, r, ms), r)
  {
    var m := MergeGroup(t, r, ms);
    var n := |t.rows|;
    forall i | 0 <= i < n ensures Get(m, m.rows[i], r) == None {
      MergeGroupOldRowsRoot(t, r, ms, i);
    }
    forall i, c | 0 <= i < |m.rows| && c in m.columns && c != r
      ensures Get(m, m.rows[i], r).Some? ==> Get(m, m.rows[i], c).None?
    {
      if i >= n {
        MergeGroupNewRows(t, r, ms, i - n, c);
      }
    }
  }

  /** The stacked list depends only on the members' present values. */
  lemma {:induction false} StackedSame(t1: Table, t2: Table, ms: seq<string>)
    requires Wf(t1) && forall k :: 0 <= k < |ms| ==> ms[k] in t1.columns
    requires Wf(t2) && forall k :: 0 <= k < |ms| ==> ms[k] in t2.columns
    requires forall k :: 0 <= k < |ms| ==> Present(ColumnCells(t1, ms[k])) == Present(ColumnCells(t2, ms[k]))
    ensures Stacked(t1, ms) == Stacked(t2, ms)
    decreases |ms|
  {
    if ms != [] {
      StackedSame(t1, t2, ms[1..]);
    }
  }

  // ---------------------------------------------------------------------
  // Merging every group
  // ---------------------------------------------------------------------

  /** The loop over `root_map`: each group with more than one member is
      merged, in the order of `rs`. Groups are computed once from the
      normalised names `cols`. */
  function MergeAll(t: Table, cols: seq<string>, key: string -> string, rs: seq<string>): (m: Table)
    requires Wf(t) && NoDup(rs)
    requires forall c :: c in cols && key(c) in rs ==> c in t.columns
    ensures Wf(m) && |m.rows| >= |t.rows|
    decreases |rs|
  {
    if rs == [] then t
    else
      var ms := Members(cols, key, rs[0]);
      assert forall k :: 0 <= k < |ms| ==> ms[k] in t.columns by {
        forall k | 0 <= k < |ms| ensures ms[k] in t.columns {
          assert ms[k] in ms;
        }
      }
      var next := if |ms| > 1 then MergeGroup(t, rs[0], ms) else t;
      NoDupTail(rs);
      MergeAll(next, cols, key, rs[1..])
  }

  /** The column belongs to a group that gets merged. */
  predicate InMergedGroup(cols: seq<string>, key: string -> string, rs: seq<string>, c: string) {
    c in cols && key(c) in rs && |Members(cols, key, key(c))| > 1
  }

  /** A column outside every merged group survives the merges and keeps its
      cells in the original rows. */
  lemma {:induction false} MergeAllKeeps(t: Table, cols: seq<string>, key: string -> string, rs: seq<string>, c: string, i: nat)
    requires Wf(t) && NoDup(rs)
    requires forall c :: c in cols && key(c) in rs ==> c in t.columns
    requires c in t.columns && !InMergedGroup(cols, key, rs, c) && i < |t.rows|
    ensures c in MergeAll(t, cols, key, rs).columns
    ensures Get(MergeAll(t, cols, key, rs), MergeAll(t, cols, key, rs).rows[i], c) == Get(t, t.rows[i], c)
    decreases |rs|
  {
    if rs != [] {
      var ms := Members(cols, key, rs[0]);
      assert forall k :: 0 <= k < |ms| ==> ms[k] in t.columns by {
        forall k | 0 <= k < |ms| ensures ms[k] in t.columns {
          assert ms[k] in ms;
        }
      }
      var next := if |ms| > 1 then MergeGroup(t, rs[0], ms) else t;
      NoDupTail(rs);
      if |ms| > 1 {
        assert c !in ms;
        MergeGroupOldRows(t, rs[0], ms, i, c);
      }
      MemberCons(rs);
      MergeAllKeeps(next, cols, key, rs[1..], c, i);
    }
  }

  /** A column that is absent stays absent unless a later group is named after it. */
  lemma {:induction false} MergeAllAbsent(t: Table, cols: seq<string>, key: string -> string, rs: seq<string>, c: string)
    requires Wf(t) && NoDup(rs)
    requires forall c :: c in cols && key(c) in rs ==> c in t.columns
    requires c !in t.columns && c !in SharedKeys(cols, key, rs)
    ensures c !in MergeAll(t, cols, key, rs).columns
    decreases |rs|
  {
    if rs != [] {
      var ms := Members(cols, key, rs[0]);
      assert forall k :: 0 <= k < |ms| ==> ms[k] in t.columns by {
        forall k | 0 <= k < |ms| ensures ms[k] in t.columns {
          assert ms[k] in ms;
        }
      }
      var next := if |ms| > 1 then MergeGroup(t, rs[0], ms) else t;
      NoDupTail(rs);
      MemberCons(rs);
      MergeAllAbsent(next, cols, key, rs[1..], c);
    }
  }

  /** A member of a merged group is gone afterwards, unless some merged
      group is named after it. */
  lemma {:induction false} MergeAllDrops(t: Table, cols: seq<string>, key: string -> string, rs: seq<string>, c: string)
    requires Wf(t) && NoDup(rs)
    requires forall c :: c in cols && key(c) in rs ==> c in t.columns
    requires InMergedGroup(cols, key, rs, c) && c !in SharedKeys(cols, key, rs)
    ensures c !in MergeAll(t, cols, key, rs).columns
    decreases |rs|
  {
    var ms := Members(cols, key, rs[0]);
    assert forall k :: 0 <= k < |ms| ==> ms[k] in t.columns by {
      forall k | 0 <= k < |ms| ensures ms[k] in t.columns {
        assert ms[k] in ms;
      }
    }
    var next := if |ms| > 1 then MergeGroup(t, rs[0], ms) else t;
    NoDupTail(rs);
    MemberCons(rs);
    if key(c) == rs[0] {
      assert c in ms && rs[0] in SharedKeys(cols, key, rs);
      MergeAllAbsent(next, cols, key, rs[1..], c);
    } else {
      MergeAllDrops(next, cols, key, rs[1..], c);
    }
  }

  /** A column that is neither a merged root nor in a merged group keeps
      its values through the merges, and keeps having them only in rows of
      its own. */
  lemma {:induction false} MergeAllOther(t: Table, cols: seq<string>, key: string -> string, rs: seq<string>, c: string)
    requires Wf(t) && NoDup(rs)
    requires forall c :: c in cols && key(c) in rs ==> c in t.columns
    requires c in t.columns && c !in SharedKeys(cols, key, rs) && !InMergedGroup(cols, key, rs, c)
    ensures c in MergeAll(t, cols, key, rs).columns
    ensures Present(ColumnCells(MergeAll(t, cols, key, rs), c)) == Present(ColumnCells(t, c))
    ensures OnlyValueIn(t, c) ==> OnlyValueIn(MergeAll(t, cols, key, rs), c)
    decreases |rs|
  {
    if rs != [] {
      var ms := Members(cols, key, rs[0]);
      assert forall k :: 0 <= k < |ms| ==> ms[k] in t.columns by {
        forall k | 0 <= k < |ms| ensures ms[k] in t.columns {
          assert ms[k] in ms;
        }
      }
      var next := if |ms| > 1 then MergeGroup(t, rs[0], ms) else t;
      NoDupTail(rs);
      MemberCons(rs);
      if |ms| > 1 {
        assert c !in ms && c != rs[0];
        MergeGroupOtherColumn(t, rs[0], ms, c);
        if OnlyValueIn(t, c) {
          MergeGroupKeepsOnly(t, rs[0], ms, c);
        }
      }
      MergeAllOther(next, cols, key, rs[1..], c);
    }
  }

  /** A merged root that no column outside its group is named after, and
      whose group holds no other merged root's name, ends up as a column
      whose values are exactly the group's stacked values, in order, each in
      a row of its own that is missing in every other column; the rows that
      were there before are missing in it. */
  lemma {:induction false} MergeAllRoot(t: Table, cols: seq<string>, key: string -> string, rs: seq<string>, r: string)
    requires Wf(t) && NoDup(rs)
    requires forall c :: c in cols && key(c) in rs ==> c in t.columns
    requires r in SharedKeys(cols, key, rs)
    requires r in t.columns ==> r in cols
    requires r in cols ==> key(r) == r
    requires forall c :: c in Members(cols, key, r) && c in SharedKeys(cols, key, rs) ==> c == r
    ensures r in MergeAll(t, cols, key, rs).columns
    ensures Present(ColumnCells(MergeAll(t, cols, key, rs), r)) == Stacked(t, Members(cols, key, r))
    ensures forall i :: 0 <= i < |t.rows| ==> Get(MergeAll(t, cols, key, rs), MergeAll(t, cols, key, rs).rows[i], r) == None
    ensures OnlyValueIn(MergeAll(t, cols, key, rs), r)
    decreases |rs|
  {
    var ms := Members(cols, key, rs[0]);
    var mr := Members(cols, key, r);
    assert forall k :: 0 <= k < |ms| ==> ms[k] in t.columns by {
      forall k | 0 <= k < |ms| ensures ms[k] in t.columns {
        assert ms[k] in ms;
      }
    }
    var next := if |ms| > 1 then MergeGroup(t, rs[0], ms) else t;
    NoDupTail(rs);
    MemberCons(rs);
    var m := MergeAll(next, cols, key, rs[1..]);
    assert m == MergeAll(t, cols, key, rs);
    if rs[0] == r {
      MergeGroupRootPresent(t, r, ms);
      MergeGroupRootOnly(t, r, ms);
      MergeAllOther(next, cols, key, rs[1..], r);
      forall i | 0 <= i < |t.rows| ensures Get(m, m.rows[i], r) == None {
        MergeAllKeeps(next, cols, key, rs[1..], r, i);
      }
    } else {
      assert forall k :: 0 <= k < |mr| ==> mr[k] in t.columns && mr[k] in next.columns by {
        forall k | 0 <= k < |mr| ensures mr[k] in t.columns && mr[k] in next.columns {
          assert mr[k] in mr;
        }
      }
      if |ms| > 1 {
        forall k | 0 <= k < |mr| ensures Present(ColumnCells(next, mr[k])) == Present(ColumnCells(t, mr[k])) {
          assert mr[k] in mr;
          MergeGroupOtherColumn(t, rs[0], ms, mr[k]);
        }
      }
      StackedSame(next, t, mr);
      MergeAllRoot(next, cols, key, rs[1..], r);
    }
  }

  // ---------------------------------------------------------------------
  // Trimming text columns
  // ---------------------------------------------------------------------

  /** `astype(str).str.strip()` on one cell: a missing value becomes the text "nan". */
  function StripCell(c: Cell): (d: Cell)
    ensures d.Some? && d.value == Trim(Str(c))
  {
    Some(Trim(Str(c)))
  }

  function StripRow(cols: seq<string>, text: set<string>, row: Row): (s: Row)
    requires |row| == |cols|
    ensures |s| == |row|
  {
    seq(|row|, k requires 0 <= k < |row| => if cols[k] in text then StripCell(row[k]) else row[k])
  }

  /** Every text column is converted and trimmed; other columns are untouched. */
  function StripText(t: Table, text: set<string>): (s: Table)
    requires Wf(t)
    ensures Wf(s) && s.columns == t.columns && |s.rows| == |t.rows|
  {
    Table(t.columns, seq(|t.rows|, i requires 0 <= i < |t.rows| => StripRow(t.columns, text, t.rows[i])))
  }

  /** After the strip a text column holds no missing value and no value with
      whitespace at its ends; a missing cell reads "nan"; other columns keep
      their cells. */
  lemma StripTextCells(t: Table, text: set<string>, i: nat, k: nat)
    requires Wf(t) && i < |t.rows| && k < |t.columns|
    ensures t.columns[k] in text ==>
      && StripText(t, text).rows[i][k].Some?
      && Trim(StripText(t, text).rows[i][k].value) == StripText(t, text).rows[i][k].value
      && (t.rows[i][k].None? ==> StripText(t, text).rows[i][k] == Some("nan"))
    ensures t.columns[k] !in text ==> StripText(t, text).rows[i][k] == t.rows[i][k]
  {
    TrimIdempotent(Str(t.rows[i][k]));
    TrimFixed("nan");
  }

  /** Stripping twice is stripping once. */
  lemma StripTextIdempotent(t: Table, text: set<string>)
    requires Wf(t)
    ensures StripText(StripText(t, text), text) == StripText(t, text)
  {
    var s := StripText(t, text);
    var s2 := StripText(s, text);
    forall i | 0 <= i < |t.rows| ensures s2.rows[i] == s.rows[i] {
      forall k | 0 <= k < |t.columns| ensures s2.rows[i][k] == s.rows[i][k] {
        TrimIdempotent(Str(t.rows[i][k]));
      }
    }
  }

  /** `list(str_cols)`: the columns, in frame order, whose type is text. */
  function TextColumns(cols: seq<string>, text: set<string>): (ts: seq<string>)
    ensures forall c :: c in ts <==> c in cols && c in text
    ensures IsSubseq(ts, cols)
    decreases |cols|
  {
    if cols == [] then []
    else
      var rest := TextColumns(cols[1..], text);
      MemberCons(cols);
      if cols[0] in text then
        assert ([cols[0]] + rest)[1..] == rest;
        [cols[0]] + rest
      else
        SubseqCons(rest, cols[1..], cols[0]);
        assert [cols[0]] + cols[1..] == cols;
        rest
  }

  /** De-duplication keeps the same set of rows. */
  lemma DropDuplicatesMembers(t: Table)
    requires Wf(t)
    ensures forall r :: r in DropDuplicates(t).rows <==> r in t.rows
  {
    var d := DropDuplicates(t);
    forall r | r in t.rows ensures r in d.rows {
      var i :| 0 <= i < |t.rows| && t.rows[i] == r;
    }
  }

  // ---------------------------------------------------------------------
  // Missing values
  // ---------------------------------------------------------------------

  /** `df.dropna()`: the rows without a missing cell, in order. */
  function DropNa(rows: seq<Row>): (kept: seq<Row>)
    ensures forall r :: r in kept <==> r in rows && MissingInRow(r) == 0
    ensures IsSubseq(kept, rows)
    decreases |rows|
  {
    if rows == [] then []
    else
      var rest := DropNa(rows[1..]);
      MemberCons(rows);
      if MissingInRow(rows[0]) == 0 then
        assert ([rows[0]] + rest)[1..] == rest;
        [rows[0]] + rest
      else
        SubseqCons(rest, rows[1..], rows[0]);
        assert [rows[0]] + rows[1..] == rows;
        rest
  }

  function FillRow(row: Row, v: string): (f: Row)
    ensures |f| == |row|
  {
    seq(|row|, k requires 0 <= k < |row| => if row[k].None? then Some(v) else row[k])
  }

  /** `df.fillna(v)`: every missing cell becomes `v`. */
  function FillNa(rows: seq<Row>, v: string): (fs: seq<Row>)
    ensures |fs| == |rows|
    ensures forall i :: 0 <= i < |rows| ==> |fs[i]| == |rows[i]|
  {
    seq(|rows|, i requires 0 <= i < |rows| => FillRow(rows[i], v))
  }

  /** Filling changes exactly the missing cells and leaves none. */
  lemma FillNaCells(rows: seq<Row>, v: string)
    ensures forall i, k :: 0 <= i < |rows| && 0 <= k < |rows[i]| ==>
      FillNa(rows, v)[i][k] == (if rows[i][k].None? then Some(v) else rows[i][k])
    ensures MissingCount(FillNa(rows, v)) == 0
  {
    var fs: seq<Row> := FillNa(rows, v);
    forall i: int, k: int | 0 <= i < |fs| && 0 <= k < |fs[i]| ensures fs[i][k].Some? {
      assert fs[i] == FillRow(rows[i], v);
    }
  }

  /** After `dropna()` nothing is missing. */
  lemma DropNaComplete(rows: seq<Row>)
    ensures MissingCount(DropNa(rows)) == 0
  {
    var kept: seq<Row> := DropNa(rows);
    forall i: int, k: int | 0 <= i < |kept| && 0 <= k < |kept[i]| ensures kept[i][k].Some? {
      assert kept[i] in kept;
    }
  }

  // ---------------------------------------------------------------------
  // The whole stage
  // ---------------------------------------------------------------------

  /** The counters and lists `clean_data` reports. Optional fields are the
      keys the program only sets on some paths. */
  datatype CleaningInfo = CleaningInfo(
    originalColumns: seq<string>,
    cleanedColumns: seq<string>,
    mergedColumnGroups: Option<seq<string>>,
    strippedStringColumns: seq<string>,
    duplicatesRemoved: nat,
    rowsDroppedDueToNa: Option<nat>,
    naFilledWith: Option<string>,
    missingValuesBefore: nat,
    missingValuesAfter: nat)

  /** Why the program raises instead of returning. */
  datatype CleaningError =
    | RootPatternMismatch  // `pat.match` returned None: a line break in the stem
    | DuplicateColumnNames // two names normalise alike; `df[c]` is then a frame without `.str`

  datatype Cleaned = Cleaned(table: Table, info: CleaningInfo)

  predicate Rectangular(t: Table) {
    forall i :: 0 <= i < |t.rows| ==> |t.rows[i]| == |t.columns|
  }

  /** Every normalised name matches the root pattern. */
  predicate RootsMatch(t: Table) {
    forall k :: 0 <= k < |t.columns| ==> RootMatches(CleanName(t.columns[k]))
  }

  /** The inputs on which `clean_data` does not raise. */
  predicate Cleanable(t: Table) {
    Rectangular(t) && RootsMatch(t) && NoDup(CleanNames(t.columns))
  }

  /** `df.columns = new_columns`. */
  function Renamed(t: Table): (r: Table)
    requires Cleanable(t)
    ensures Wf(r) && r.rows == t.rows
  {
    Table(CleanNames(t.columns), t.rows)
  }

  /** The keys of `root_map`: the roots of the normalised names, each once,
      in order of first appearance. */
  function RootGroups(t: Table): seq<string> {
    GroupKeys(CleanNames(t.columns), Root)
  }

  /** `merged_cols`: the roots shared by more than one column. */
  function MergedRoots(t: Table): seq<string> {
    SharedKeys(CleanNames(t.columns), Root, RootGroups(t))
  }

  /** The frame after the merge loop. */
  function RootMerged(t: Table): (m: Table)
    requires Cleanable(t)
    ensures Wf(m)
  {
    MergeAll(Renamed(t), CleanNames(t.columns), Root, RootGroups(t))
  }

  /** The dtype family of an input column, as far as the stage can tell:
      `object` or `string` (which `select_dtypes` picks), `bool`, or any
      other type (numbers, dates), which is never picked. */
  datatype ColumnType = TextType | BoolType | OtherType

  /** Some merge appended rows, so every surviving column was padded with
      NaN below its old cells (the `concat` of a merge). */
  predicate Padded(t: Table)
    requires Cleanable(t)
  {
    |RootMerged(t).rows| > |t.rows|
  }

  /** `select_dtypes` picks the input column at position `k`: it is text, or
      it is bool and NaN padding has turned it into `object`. */
  predicate PickedAt(t: Table, types: seq<ColumnType>, k: nat)
    requires Cleanable(t) && |types| == |t.columns| && k < |t.columns|
  {
    types[k] == TextType || (types[k] == BoolType && Padded(t))
  }

  /** `select_dtypes(include=['object', 'string'])` on the merged frame: the
      input columns it picks, and every merged root, whose cells are
      strings. */
  function TextAfterMerge(t: Table, types: seq<ColumnType>): set<string>
    requires Cleanable(t) && |types| == |t.columns|
  {
    var cols := CleanNames(t.columns);
    (set k | 0 <= k < |cols| && PickedAt(t, types, k) :: cols[k]) + (set r | r in MergedRoots(t))
  }

  function Stripped(t: Table, types: seq<ColumnType>): (s: Table)
    requires Cleanable(t) && |types| == |t.columns|
    ensures Wf(s)
  {
    StripText(RootMerged(t), TextAfterMerge(t, types))
  }

  function Deduplicated(t: Table, types: seq<ColumnType>): (d: Table)
    requires Cleanable(t) && |types| == |t.columns|
    ensures Wf(d)
  {
    DropDuplicates(Stripped(t, types))
  }

  /** `clean_data(df, fillna_value, dropna)`. `types` gives the dtype
      family pandas inferred for each input column. */
  function CleanData(t: Table, types: seq<ColumnType>, fillna: Option<string>, dropna: bool): (res: Result<Cleaned, CleaningError>)
    requires Rectangular(t) && |types| == |t.columns|
  {
    var cols := CleanNames(t.columns);
    if !RootsMatch(t) then Failure(RootPatternMismatch)
    else if !NoDup(cols) then Failure(DuplicateColumnNames)
    else
      var merged := MergedRoots(t);
      var m := RootMerged(t);
      var text := TextAfterMerge(t, types);
      var s := Stripped(t, types);
      var d := Deduplicated(t, types);
      var naBefore := MissingCount(d.rows);
      var rows :=
        if dropna then DropNa(d.rows)
        else if fillna.Some? then FillNa(d.rows, fillna.value)
        else d.rows;
      var info := CleaningInfo(
        t.columns, cols,
        if merged == [] then None else Some(merged),
        TextColumns(m.columns, text),
        |s.rows| - |d.rows|,
        if dropna then Some(naBefore) else None,
        if !dropna then fillna else None,
        naBefore,
        MissingCount(rows));
      Success(Cleaned(Table(d.columns, rows), info))
  }

  /** The report and frame of a successful run, field by field, in terms of
      the named stages. */
  lemma CleanDataFields(t: Table, types: seq<ColumnType>, fillna: Option<string>, dropna: bool)
    requires Rectangular(t) && |types| == |t.columns|
    requires CleanData(t, types, fillna, dropna).Success?
    ensures Cleanable(t)
    ensures var c := CleanData(t, types, fillna, dropna).value;
      var d := Deduplicated(t, types);
      && c.info.originalColumns == t.columns
      && c.info.cleanedColumns == CleanNames(t.columns)
      && c.info.mergedColumnGroups == (if MergedRoots(t) == [] then None else Some(MergedRoots(t)))
      && c.info.strippedStringColumns == TextColumns(RootMerged(t).columns, TextAfterMerge(t, types))
      && c.info.duplicatesRemoved == |Stripped(t, types).rows| - |d.rows|
      && c.info.rowsDroppedDueToNa == (if dropna then Some(MissingCount(d.rows)) else None)
      && c.info.naFilledWith == (if dropna then None else fillna)
      && c.info.missingValuesBefore == MissingCount(d.rows)
      && c.table.columns == d.columns
      && c.table.rows == (if dropna then DropNa(d.rows) else if fillna.Some? then FillNa(d.rows, fillna.value) else d.rows)
      && c.info.missingValuesAfter == MissingCount(c.table.rows)
  {
  }

  /** The stage fails exactly on a name the root pattern cannot match or on
      two names that normalise alike; the latter always lands in a merged
      group. */
  lemma CleanDataFails(t: Table, types: seq<ColumnType>, fillna: Option<string>, dropna: bool)
    requires Rectangular(t) && |types| == |t.columns|
    ensures CleanData(t, types, fillna, dropna).Failure? <==> !Cleanable(t)
    ensures !RootsMatch(t) ==> CleanData(t, types, fillna, dropna) == Failure(RootPatternMismatch)
    ensures forall i, j :: 0 <= i < j < |t.columns| && CleanName(t.columns[i]) == CleanName(t.columns[j]) ==>
      |Members(CleanNames(t.columns), Root, Root(CleanName(t.columns[i])))| > 1
  {
    var cols := CleanNames(t.columns);
    forall i, j | 0 <= i < j < |t.columns| && CleanName(t.columns[i]) == CleanName(t.columns[j])
      ensures |Members(cols, Root, Root(CleanName(t.columns[i])))| > 1
    {
      SharedKeyGroup(cols, Root, i, j);
    }
  }

  /** Both name lists are reported; the cleaned ones are normalised, one per
      original. */
  lemma CleanDataNames(t: Table, types: seq<ColumnType>, fillna: Option<string>, dropna: bool)
    requires Rectangular(t) && |types| == |t.columns|
    requires CleanData(t, types, fillna, dropna).Success?
    ensures var info := CleanData(t, types, fillna, dropna).value.info;
      && info.originalColumns == t.columns
      && |info.cleanedColumns| == |t.columns|
      && forall k :: 0 <= k < |t.columns| ==>
           info.cleanedColumns[k] == Lower(Trim(t.columns[k])) && CleanName(info.cleanedColumns[k]) == info.cleanedColumns[k]
  {
    forall k | 0 <= k < |t.columns| ensures CleanName(CleanName(t.columns[k])) == CleanName(t.columns[k]) {
      CleanNameIdempotent(t.columns[k]);
    }
  }

  /** `merged_column_groups` is reported only when some root is shared by
      several columns, and lists exactly those roots in the order they
      first appear among the columns. */
  lemma CleanDataMergedGroups(t: Table, types: seq<ColumnType>, fillna: Option<string>, dropna: bool)
    requires Rectangular(t) && |types| == |t.columns|
    requires CleanData(t, types, fillna, dropna).Success?
    ensures var info := CleanData(t, types, fillna, dropna).value.info;
      var cols := CleanNames(t.columns);
      && (info.mergedColumnGroups.None? <==> forall k :: 0 <= k < |cols| ==> |Members(cols, Root, Root(cols[k]))| <= 1)
      && (info.mergedColumnGroups.Some? ==>
            && InFirstOrder(info.mergedColumnGroups.value, KeysOf(cols, Root))
            && forall r :: r in info.mergedColumnGroups.value <==>
                 |Members(cols, Root, r)| > 1 && exists k :: 0 <= k < |cols| && Root(cols[k]) == r)
  {
    CleanDataFields(t, types, fillna, dropna);
    SharedGroupKeys(CleanNames(t.columns), Root);
  }

  /** A column outside every merged group keeps its cells in the original rows
      through the merge step. */
  lemma CleanDataKeepsUnmerged(t: Table, k: nat, i: nat)
    requires Cleanable(t) && k < |t.columns| && i < |t.rows|
    requires |Members(CleanNames(t.columns), Root, Root(CleanName(t.columns[k])))| <= 1
    ensures CleanName(t.columns[k]) in RootMerged(t).columns
    ensures Get(RootMerged(t), RootMerged(t).rows[i], CleanName(t.columns[k])) == t.rows[i][k]
  {
    var cols := CleanNames(t.columns);
    var c := cols[k];
    var r := Renamed(t);
    assert c in r.columns;
    assert FirstIndex(cols, c) == k by {
      assert forall j :: 0 <= j < k ==> cols[j] != c;
    }
    MergeAllKeeps(r, cols, Root, RootGroups(t), c, i);
  }

  /** A column of a merged group no longer exists after the merge, unless a
      merged group is named after it. */
  lemma CleanDataDropsMerged(t: Table, k: nat)
    requires Cleanable(t) && k < |t.columns|
    requires |Members(CleanNames(t.columns), Root, Root(CleanName(t.columns[k])))| > 1
    requires CleanName(t.columns[k]) !in MergedRoots(t)
    ensures CleanName(t.columns[k]) !in RootMerged(t).columns
  {
    var cols := CleanNames(t.columns);
    assert cols[k] in cols;
    MembersPartition(cols, Root, cols[k]);
    MergeAllDrops(Renamed(t), cols, Root, RootGroups(t), cols[k]);
  }

  /** The values the merge stacks for root `r`: the trimmed, non-empty
      values of the group's members, member by member in column order. */
  function MergedValues(t: Table, r: string): (vs: seq<string>)
    requires Cleanable(t)
  {
    var ms := Members(CleanNames(t.columns), Root, r);
    assert forall k :: 0 <= k < |ms| ==> ms[k] in Renamed(t).columns by {
      forall k | 0 <= k < |ms| ensures ms[k] in Renamed(t).columns {
        assert ms[k] in ms;
      }
    }
    Stacked(Renamed(t), ms)
  }

  /** Any column already named after `r` belongs to the group of `r`. */
  predicate RootNameInGroup(t: Table, r: string) {
    forall k :: 0 <= k < |t.columns| && CleanName(t.columns[k]) == r ==> Root(r) == r
  }

  /** No member of the group of `r` is named after another merged root. */
  predicate NoOtherRootInGroup(t: Table, r: string) {
    forall k :: 0 <= k < |t.columns| && Root(CleanName(t.columns[k])) == r && CleanName(t.columns[k]) in MergedRoots(t) ==>
      CleanName(t.columns[k]) == r
  }

  /** The two conditions, stated over the normalised names. */
  lemma MergedColumnConditions(t: Table, r: string)
    requires Cleanable(t) && RootNameInGroup(t, r) && NoOtherRootInGroup(t, r)
    ensures var cols := CleanNames(t.columns);
      && (r in cols ==> Root(r) == r)
      && forall c :: c in Members(cols, Root, r) && c in MergedRoots(t) ==> c == r
  {
    var cols := CleanNames(t.columns);
    if r in cols {
      var k :| 0 <= k < |cols| && cols[k] == r;
    }
    forall c | c in Members(cols, Root, r) && c in MergedRoots(t) ensures c == r {
      var k :| 0 <= k < |cols| && cols[k] == c;
    }
  }

  /** A merged root becomes one column holding exactly the values the merge
      stacks for it, in order, each in an appended row that is missing in
      every other column; the original rows are missing in it. This holds
      when any column already named after the root belongs to the root's
      group, and no member of the group is named after another merged root;
      otherwise pandas' alignment by name mixes the groups. */
  lemma CleanDataMergedColumn(t: Table, r: string)
    requires Cleanable(t) && r in MergedRoots(t)
    requires RootNameInGroup(t, r) && NoOtherRootInGroup(t, r)
    ensures r in RootMerged(t).columns
    ensures Present(ColumnCells(RootMerged(t), r)) == MergedValues(t, r)
    ensures forall i :: 0 <= i < |t.rows| ==> Get(RootMerged(t), RootMerged(t).rows[i], r) == None
    ensures OnlyValueIn(RootMerged(t), r)
  {
    MergedColumnConditions(t, r);
    MergeAllRoot(Renamed(t), CleanNames(t.columns), Root, RootGroups(t), r);
  }

  /** An input column named `c` (after normalising) that `select_dtypes`
      picks. */
  predicate PickedInput(t: Table, types: seq<ColumnType>, c: string)
    requires Cleanable(t) && |types| == |t.columns|
  {
    exists k :: 0 <= k < |t.columns| && CleanName(t.columns[k]) == c && PickedAt(t, types, k)
  }

  /** The text set after the merge, column by column. */
  lemma TextAfterMergeMembers(t: Table, types: seq<ColumnType>, c: string)
    requires Cleanable(t) && |types| == |t.columns|
    ensures c in TextAfterMerge(t, types) <==> c in MergedRoots(t) || PickedInput(t, types, c)
  {
    var cols := CleanNames(t.columns);
    if PickedInput(t, types, c) {
      var k :| 0 <= k < |t.columns| && CleanName(t.columns[k]) == c && PickedAt(t, types, k);
      assert cols[k] == c;
    }
  }

  /** `stripped_string_columns` lists, in frame order, the columns of the
      merged frame that are merged roots, text columns of the input, or
      bool columns of the input once a merge has padded them; the strip
      leaves the column list as it was. */
  lemma CleanDataStripped(t: Table, types: seq<ColumnType>, fillna: Option<string>, dropna: bool)
    requires Rectangular(t) && |types| == |t.columns|
    requires CleanData(t, types, fillna, dropna).Success?
    ensures Cleanable(t)
    ensures var info := CleanData(t, types, fillna, dropna).value.info;
      && IsSubseq(info.strippedStringColumns, RootMerged(t).columns)
      && (forall c :: c in info.strippedStringColumns <==>
            c in RootMerged(t).columns && (c in MergedRoots(t) || PickedInput(t, types, c)))
      && Stripped(t, types).columns == RootMerged(t).columns
  {
    CleanDataFields(t, types, fillna, dropna);
    forall c ensures c in TextAfterMerge(t, types) <==> c in MergedRoots(t) || PickedInput(t, types, c) {
      TextAfterMergeMembers(t, types, c);
    }
  }

  /** After the strip, every cell of a listed column holds a value with no
      whitespace at its ends, and a cell the merge left missing reads "nan",
      so it no longer counts as missing. */
  lemma CleanDataStrippedCells(t: Table, types: seq<ColumnType>, c: string, i: nat)
    requires Cleanable(t) && |types| == |t.columns|
    requires c in TextColumns(RootMerged(t).columns, TextAfterMerge(t, types)) && i < |RootMerged(t).rows|
    ensures c in Stripped(t, types).columns
    ensures var cell := Get(Stripped(t, types), Stripped(t, types).rows[i], c);
      && cell.Some? && Trim(cell.value) == cell.value
      && (Get(RootMerged(t), RootMerged(t).rows[i], c).None? ==> cell == Some("nan"))
  {
    var m := RootMerged(t);
    StripTextCells(m, TextAfterMerge(t, types), i, FirstIndex(m.columns, c));
  }

  /** `duplicates_removed` is the number of rows the de-duplication dropped;
      the rows left are distinct and are the same set of rows as before. */
  lemma CleanDataDedup(t: Table, types: seq<ColumnType>, fillna: Option<string>, dropna: bool)
    requires Rectangular(t) && |types| == |t.columns|
    requires CleanData(t, types, fillna, dropna).Success?
    ensures var info := CleanData(t, types, fillna, dropna).value.info;
      var s := Stripped(t, types);
      var d := Deduplicated(t, types);
      && info.duplicatesRemoved + |d.rows| == |s.rows|
      && NoDup(d.rows)
      && (forall r :: r in d.rows <==> r in s.rows)
  {
    CleanDataFields(t, types, fillna, dropna);
    DropDuplicatesMembers(Stripped(t, types));
  }

  /** With `dropna` the rows with a missing cell go, the counter records the
      missing-cell count (not a row count), nothing is filled, and nothing is
      missing afterwards. */
  lemma CleanDataDropNa(t: Table, types: seq<ColumnType>, fillna: Option<string>)
    requires Rectangular(t) && |types| == |t.columns|
    requires CleanData(t, types, fillna, true).Success?
    ensures var c := CleanData(t, types, fillna, true).value;
      var d := Deduplicated(t, types);
      && c.info.missingValuesBefore == MissingCount(d.rows)
      && c.info.rowsDroppedDueToNa == Some(c.info.missingValuesBefore)
      && c.info.naFilledWith.None?
      && c.info.missingValuesAfter == 0
      && c.table.columns == d.columns
      && IsSubseq(c.table.rows, d.rows)
      && (forall r :: r in c.table.rows <==> r in d.rows && MissingInRow(r) == 0)
  {
    DropNaComplete(Deduplicated(t, types).rows);
  }

  /** With a fill value and no `dropna`, exactly the missing cells take the
      value, the row count stays, and nothing is missing afterwards. */
  lemma CleanDataFillNa(t: Table, types: seq<ColumnType>, v: string)
    requires Rectangular(t) && |types| == |t.columns|
    requires CleanData(t, types, Some(v), false).Success?
    ensures var c := CleanData(t, types, Some(v), false).value;
      var d := Deduplicated(t, types);
      && c.info.missingValuesBefore == MissingCount(d.rows)
      && c.info.rowsDroppedDueToNa.None?
      && c.info.naFilledWith == Some(v)
      && c.info.missingValuesAfter == 0
      && |c.table.rows| == |d.rows|
      && forall i, k :: 0 <= i < |d.rows| && 0 <= k < |d.rows[i]| ==>
           c.table.rows[i][k] == (if d.rows[i][k].None? then Some(v) else d.rows[i][k])
  {
    FillNaCells(Deduplicated(t, types).rows, v);
  }

  /** With neither option the de-duplicated frame is returned and the
      missing-value count is unchanged. */
  lemma CleanDataKeepNa(t: Table, types: seq<ColumnType>)
    requires Rectangular(t) && |types| == |t.columns|
    requires CleanData(t, types, None, false).Success?
    ensures var c := CleanData(t, types, None, false).value;
      && c.table == Deduplicated(t, types)
      && c.info.missingValuesAfter == c.info.missingValuesBefore
      && c.info.rowsDroppedDueToNa.None? && c.info.naFilledWith.None?
  {
  }

  /** A successful run leaves a well-formed table: distinct column names
      and every row as wide as the column list. */
  lemma CleanDataWf(t: Table, types: seq<ColumnType>, fillna: Option<string>, dropna: bool)
    requires Rectangular(t) && |types| == |t.columns|
    ensures CleanData(t, types, fillna, dropna).Success? ==> Wf(CleanData(t, types, fillna, dropna).value.table)
  {
    if CleanData(t, types, fillna, dropna).Success? {
      CleanDataFields(t, types, fillna, dropna);
      var d := Deduplicated(t, types);
      ChosenRowsWf(d, fillna, dropna);
    }
  }

  /** Dropping or filling keeps a well-formed frame well-formed. */
  lemma ChosenRowsWf(d: Table, fillna: Option<string>, dropna: bool)
    requires Wf(d)
    ensures Wf(Table(d.columns, if dropna then DropNa(d.rows) else if fillna.Some? then FillNa(d.rows, fillna.value) else d.rows))
  {
    if dropna {
      var out := DropNa(d.rows);
      forall i | 0 <= i < |out| ensures |out[i]| == |d.columns| {
        assert out[i] in d.rows;
      }
    }
  }
}
