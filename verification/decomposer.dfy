/** The entity tables of the prefix decomposer (`decompose_3nf` and
    `_assign_primary_as_foreign_keys` of `Semantic3NFPrefixDecomposer`): the
    combined columns are grouped by the first word of their names, each group
    becomes a table of its distinct rows, and every table after the first
    receives the first table's key as a foreign key. */
module Decomposer {
  import opened Wrappers
  import opened Seqs
  import opened Text
  import opened Tables
  import opened Grouping
  import opened ColumnCombining

  // ----- Names -----

  /** Characters of the class `[_\-\s\.]`. */
  predicate IsWordSep(c: char) {
    c == '_' || c == '-' || c == '.' || IsSpace(c)
  }

  predicate IsUnderscore(c: char) {
    c == '_'
  }

  /** Length of the longest prefix of `s` free of characters satisfying `stop`. */
  function LeadingUntil(s: string, stop: char -> bool): (n: nat)
    ensures n <= |s| && forall k :: 0 <= k < n ==> !stop(s[k])
    ensures n == |s| || stop(s[n])
    decreases |s|
  {
    if s == [] || stop(s[0]) then 0 else 1 + LeadingUntil(s[1..], stop)
  }

  /** The first piece of `s` split at `stop` characters. */
  function FirstPiece(s: string, stop: char -> bool): (p: string)
    ensures |p| <= |s| && p == s[..|p|]
    ensures forall k :: 0 <= k < |p| ==> !stop(p[k])
    ensures |p| == |s| || stop(s[|p|])
  {
    s[..LeadingUntil(s, stop)]
  }

  /** A cut point before any `stop` character and at one (or the end) is the
      first piece's length. */
  lemma FirstPieceUnique(s: string, stop: char -> bool, n: nat)
    requires n <= |s| && forall k :: 0 <= k < n ==> !stop(s[k])
    requires n == |s| || stop(s[n])
    ensures |FirstPiece(s, stop)| == n
  {
  }

  /** `re.split(r'[_\-\s\.]+', col.lower())[0]`: the lower-cased name up to
      its first separator, empty when the name starts with one. */
  function Prefix(c: string): (p: string)
    ensures |p| <= |c|
  {
    FirstPiece(Lower(c), IsWordSep)
  }

  /** `group_cols[0].split('_')[0]`: the name up to its first underscore,
      letter case kept. */
  function TableStem(c: string): (p: string)
    ensures |p| <= |c| && p == c[..|p|]
    ensures '_' !in p
  {
    FirstPiece(c, IsUnderscore)
  }

  /** `f"{stem}_table"`. */
  function TableName(c: string): (n: string)
    ensures n == TableStem(c) + "_table"
  {
    TableStem(c) + "_table"
  }

  /** The part of a name before its first underscore has the same prefix as
      the name, since an underscore is itself a separator. */
  lemma PrefixOfStem(c: string)
    ensures Prefix(TableStem(c)) == Prefix(c)
  {
    var q := |TableStem(c)|;
    var s := Lower(c);
    var ls := Lower(TableStem(c));
    assert ls == s[..q];
    var n := |Prefix(c)|;
    if q < |c| {
      assert s[q] == '_';
    }
    assert n <= q;
    FirstPieceUnique(ls, IsWordSep, n);
  }

  /** Names that begin differently, in the sense of `Prefix`, give different
      table names. */
  lemma TableNamesDiffer(c: string, d: string)
    requires Prefix(c) != Prefix(d)
    ensures TableName(c) != TableName(d)
  {
    PrefixOfStem(c);
    PrefixOfStem(d);
    var x := TableName(c);
    var y := TableName(d);
    if |TableStem(c)| == |TableStem(d)| {
      assert TableStem(c) == x[..|TableStem(c)|] && TableStem(d) == y[..|TableStem(d)|];
    } else {
      assert |x| != |y|;
    }
  }

  /** `'id' in col.lower()`. */
  predicate HasId(c: string) {
    Contains(Lower(c), "id")
  }

  /** The key of a table with columns `g`: its columns mentioning "id", in
      order, or else its first column. */
  function PrimaryKey(g: seq<string>): (pk: seq<string>)
    requires g != []
    ensures pk != [] && forall k :: 0 <= k < |pk| ==> pk[k] in g
    ensures (exists k :: 0 <= k < |g| && HasId(g[k])) ==>
      IsSubseq(pk, g) && forall c :: c in pk <==> c in g && HasId(c)
    ensures (forall k :: 0 <= k < |g| ==> !HasId(g[k])) ==> pk == [g[0]]
  {
    var ids := Filter(g, HasId);
    if ids != [] then ids
    else
      assert forall k :: 0 <= k < |g| ==> g[k] in g;
      [g[0]]
  }

  // ----- Entity tables -----

  datatype ForeignKey = ForeignKey(column: string, refTable: string, refColumn: string)

  /** One entry of the decomposer's `tables`. */
  datatype EntityTable = EntityTable(
    name: string,
    columns: seq<string>,
    primaryKey: seq<string>,
    data: Table,
    foreignKeys: seq<ForeignKey>)

  /** The column list matches the data, and the key is a non-empty list of
      its columns. */
  predicate Valid(e: EntityTable) {
    && Wf(e.data)
    && e.columns == e.data.columns
    && e.primaryKey != []
    && forall k :: 0 <= k < |e.primaryKey| ==> e.primaryKey[k] in e.columns
  }

  /** The table built from one group: its distinct rows, the key by the "id"
      rule, the name from the first column. */
  function EntityFor(frame: Table, g: seq<string>): (e: EntityTable)
    requires Wf(frame) && g != [] && NoDup(g) && forall k :: 0 <= k < |g| ==> g[k] in frame.columns
    ensures Valid(e) && e.foreignKeys == []
  {
    EntityTable(TableName(g[0]), g, PrimaryKey(g), DropDuplicates(Project(frame, g)), [])
  }

  /** The table of the `j`-th prefix group. */
  function GroupTable(frame: Table, j: nat): (e: EntityTable)
    requires Wf(frame) && j < |GroupKeys(frame.columns, Prefix)|
    ensures Valid(e) && e.foreignKeys == []
  {
    GroupShape(frame.columns, Prefix, j);
    EntityFor(frame, Groups(frame.columns, Prefix)[j])
  }

  /** The "other_table" built from ungrouped columns. */
  function OtherTable(frame: Table, rem: seq<string>): (e: EntityTable)
    requires Wf(frame) && rem != [] && IsSubseq(rem, frame.columns)
    ensures Valid(e) && e.foreignKeys == []
  {
    SubseqNoDup(rem, frame.columns);
    SubseqMember(rem, frame.columns);
    EntityFor(frame, rem).(name := "other_table")
  }

  /** The tables in the order `decompose_3nf` appends them, before foreign
      keys. */
  function EntityTables(frame: Table): (ts: seq<EntityTable>)
    requires Wf(frame)
    ensures forall j :: 0 <= j < |ts| ==> Valid(ts[j]) && ts[j].foreignKeys == []
  {
    var n := |GroupKeys(frame.columns, Prefix)|;
    var grouped := seq(n, j requires 0 <= j < n => GroupTable(frame, j));
    var rem := Ungrouped(frame.columns, Groups(frame.columns, Prefix));
    if rem == [] then grouped else grouped + [OtherTable(frame, rem)]
  }

  /** One table per prefix, in order of first occurrence: table `j` holds
      the columns with the `j`-th prefix in frame order, is named after the
      first of them, has the distinct rows of the frame restricted to them, and
      takes its "id" columns as key. */
  lemma EntityTablesShape(frame: Table, j: nat)
    requires Wf(frame)
    ensures |EntityTables(frame)| == |GroupKeys(frame.columns, Prefix)|
    ensures j < |GroupKeys(frame.columns, Prefix)| ==>
      var e := EntityTables(frame)[j];
      var g := Groups(frame.columns, Prefix)[j];
      && g != [] && NoDup(g)
      && (forall k :: 0 <= k < |g| ==> g[k] in frame.columns)
      && e.columns == g
      && (forall c :: c in g <==> c in frame.columns && Prefix(c) == GroupKeys(frame.columns, Prefix)[j])
      && e.name == TableName(g[0])
      && e.primaryKey == PrimaryKey(g)
      && e.data == DropDuplicates(Project(frame, g))
  {
    UngroupedEmpty(frame.columns, Prefix);
    if j < |GroupKeys(frame.columns, Prefix)| {
      GroupShape(frame.columns, Prefix, j);
    }
  }

  /** Different tables have different names. */
  lemma EntityNamesDistinct(frame: Table, i: nat, j: nat)
    requires Wf(frame) && i < j < |EntityTables(frame)|
    ensures EntityTables(frame)[i].name != EntityTables(frame)[j].name
  {
    var cols := frame.columns;
    var ps := GroupKeys(cols, Prefix);
    EntityTablesShape(frame, i);
    EntityTablesShape(frame, j);
    GroupShape(cols, Prefix, i);
    GroupShape(cols, Prefix, j);
    var gi := Groups(cols, Prefix)[i];
    var gj := Groups(cols, Prefix)[j];
    assert Prefix(gi[0]) == ps[i] && Prefix(gj[0]) == ps[j];
    TableNamesDiffer(gi[0], gj[0]);
  }

  /** A column of the frame is a column of exactly the table of its prefix. */
  lemma ColumnInOneTable(frame: Table, c: string, j: nat)
    requires Wf(frame) && c in frame.columns && j < |GroupKeys(frame.columns, Prefix)|
    ensures |EntityTables(frame)| == |GroupKeys(frame.columns, Prefix)|
    ensures c in EntityTables(frame)[j].columns <==> GroupKeys(frame.columns, Prefix)[j] == Prefix(c)
  {
    EntityTablesShape(frame, j);
    GroupOf(frame.columns, Prefix, c, j);
  }

  // ----- Foreign keys -----

  /** `base_table['df'][base_pk].dropna().astype(str).unique()`. */
  function BasePool(base: EntityTable): (pool: seq<string>)
    requires Valid(base)
    ensures NoDup(pool)
  {
    Distinct(Present(ColumnCells(base.data, base.primaryKey[0])))
  }

  /** The pool holds exactly the values the base key column holds. */
  lemma BasePoolValues(base: EntityTable, v: string)
    requires Valid(base)
    ensures v in BasePool(base) <==>
      exists i :: 0 <= i < |base.data.rows| && Get(base.data, base.data.rows[i], base.primaryKey[0]) == Some(v)
  {
    var cells := ColumnCells(base.data, base.primaryKey[0]);
    var vs := Present(cells);
    var pool := BasePool(base);
    if v in pool {
      var k :| 0 <= k < |pool| && pool[k] == v;
      assert v in vs;
      var i :| 0 <= i < |cells| && cells[i] == Some(v);
    }
    if exists i :: 0 <= i < |base.data.rows| && Get(base.data, base.data.rows[i], base.primaryKey[0]) == Some(v) {
      var i :| 0 <= i < |base.data.rows| && Get(base.data, base.data.rows[i], base.primaryKey[0]) == Some(v);
      assert cells[i] == Some(v);
      var k :| 0 <= k < |vs| && vs[k] == v;
    }
  }

  /** `pd.Series(pool).sample(n=n, replace=True)`: the `r`-th draw for the
      table at position `i` takes the pool entry at `draw(i, r)` modulo the
      pool size. The choice function stands for the random generator. */
  function Sample(pool: seq<string>, n: nat, i: nat, draw: (nat, nat) -> nat): (vs: seq<string>)
    requires n > 0 ==> pool != []
    ensures |vs| == n && forall r :: 0 <= r < n ==> vs[r] in pool
  {
    seq(n, r requires 0 <= r < n => pool[draw(i, r) % |pool|])
  }

  /** Sampling can fail only on an empty pool facing a table that has rows
      and lacks the key column. */
  predicate SampleFails(e: EntityTable, pk: string, pool: seq<string>) {
    pk !in e.data.columns && |e.data.rows| > 0 && pool == []
  }

  /** The loop body for one target table: add the key column with sampled
      values if it is missing, then record the foreign key. */
  function Link(e: EntityTable, i: nat, baseName: string, pk: string, pool: seq<string>, draw: (nat, nat) -> nat): (l: EntityTable)
    requires Valid(e) && !SampleFails(e, pk, pool)
    ensures Valid(l) && pk in l.columns
  {
    var fk := ForeignKey(pk, baseName, pk);
    if pk in e.data.columns then e.(foreignKeys := e.foreignKeys + [fk])
    else
      var n := |e.data.rows|;
      var vs := Sample(pool, n, i, draw);
      var rows := seq(n, r requires 0 <= r < n => e.data.rows[r] + [Some(vs[r])]);
      var cols := e.data.columns + [pk];
      NoDupAppend(e.data.columns, [pk]);
      assert forall k :: 0 <= k < |e.primaryKey| ==> e.primaryKey[k] in cols;
      e.(columns := cols, data := Table(cols, rows), foreignKeys := e.foreignKeys + [fk])
  }

  datatype DecomposeError =
    | NoColumns        // `max()` of no series lengths
    | EmptySamplePool  // `sample` with replacement from an empty pool

  /** `base_table['primary_key'][0]`. */
  function BaseKey(ts: seq<EntityTable>): (pk: string)
    requires ts != [] && Valid(ts[0])
    ensures pk in ts[0].columns
  {
    ts[0].primaryKey[0]
  }

  /** `_assign_primary_as_foreign_keys`. */
  function AssignForeignKeys(ts: seq<EntityTable>, draw: (nat, nat) -> nat): (r: Result<seq<EntityTable>, DecomposeError>)
    requires forall j {:trigger ts[j]} :: 0 <= j < |ts| ==> Valid(ts[j])
    ensures r.Failure? <==> ts != [] && exists j :: 1 <= j < |ts| && SampleFails(ts[j], BaseKey(ts), BasePool(ts[0]))
    ensures r.Success? ==> |r.value| == |ts| && forall j :: 0 <= j < |ts| ==> Valid(r.value[j])
  {
    if ts == [] then Success([])
    else
      var base := ts[0];
      var pk := BaseKey(ts);
      var pool := BasePool(base);
      if exists j :: 1 <= j < |ts| && SampleFails(ts[j], pk, pool) then Failure(EmptySamplePool)
      else
        Success([base] + seq(|ts| - 1, j requires 0 <= j < |ts| - 1 => Link(ts[j + 1], j + 1, base.name, pk, pool, draw)))
  }

  /** The first table is left as it is; every later table keeps its name, key
      and rows, gains the foreign key to the first table's key, and holds that
      key column, appended with values drawn from the first table's key
      values when it was missing. */
  lemma AssignForeignKeysLinks(ts: seq<EntityTable>, draw: (nat, nat) -> nat, j: nat)
    requires forall k :: 0 <= k < |ts| ==> Valid(ts[k])
    requires AssignForeignKeys(ts, draw).Success? && 1 <= j < |ts|
    ensures var r := AssignForeignKeys(ts, draw).value;
      var pk := BaseKey(ts);
      && r[0] == ts[0]
      && r[j].name == ts[j].name && r[j].primaryKey == ts[j].primaryKey
      && r[j].foreignKeys == ts[j].foreignKeys + [ForeignKey(pk, ts[0].name, pk)]
      && |r[j].data.rows| == |ts[j].data.rows|
      && pk in r[j].columns
      && (pk in ts[j].columns ==> r[j].data == ts[j].data)
      && (pk !in ts[j].columns ==>
            && r[j].columns == ts[j].columns + [pk]
            && forall i :: 0 <= i < |ts[j].data.rows| ==>
                 |r[j].data.rows[i]| == |ts[j].data.rows[i]| + 1
                 && r[j].data.rows[i][..|ts[j].data.rows[i]|] == ts[j].data.rows[i]
                 && r[j].data.rows[i][|ts[j].data.rows[i]|].Some?
                 && r[j].data.rows[i][|ts[j].data.rows[i]|].value in BasePool(ts[0]))
  {
    var r := AssignForeignKeys(ts, draw).value;
    var pk := BaseKey(ts);
    var pool := BasePool(ts[0]);
    assert !SampleFails(ts[j], pk, pool);
    assert r[j] == Link(ts[j], j, ts[0].name, pk, pool, draw);
    if pk !in ts[j].columns {
      var n := |ts[j].data.rows|;
      var vs := Sample(pool, n, j, draw);
      forall i | 0 <= i < n
        ensures r[j].data.rows[i] == ts[j].data.rows[i] + [Some(vs[i])]
      {
      }
    }
  }

  // ----- The whole decomposition -----

  /** Building the decomposer and calling `decompose_3nf()`. */
  function Decompose(t: Table, st: Strategy, draw: (nat, nat) -> nat): (r: Result<seq<EntityTable>, DecomposeError>)
    requires Wf(t)
    ensures t.columns == [] ==> r == Failure(DecomposeError.NoColumns)
    ensures r.Success? ==> forall j :: 0 <= j < |r.value| ==> Valid(r.value[j])
  {
    match CombineColumns(t, st)
    case Failure(_) => Failure(DecomposeError.NoColumns)
    case Success(frame) => AssignForeignKeys(EntityTables(frame), draw)
  }

  /** The first table's key lies in the first group, so no later table has
      it: every later table gets the key column appended. */
  lemma BaseKeyOnlyInBase(frame: Table, j: nat)
    requires Wf(frame) && 1 <= j < |EntityTables(frame)|
    ensures BaseKey(EntityTables(frame)) !in EntityTables(frame)[j].columns
  {
    var ts := EntityTables(frame);
    var pk := BaseKey(ts);
    EntityTablesShape(frame, 0);
    EntityTablesShape(frame, j);
    assert pk in ts[0].columns;
    assert pk in frame.columns by {
      GroupShape(frame.columns, Prefix, 0);
    }
    ColumnInOneTable(frame, pk, 0);
    ColumnInOneTable(frame, pk, j);
    assert GroupKeys(frame.columns, Prefix)[0] != GroupKeys(frame.columns, Prefix)[j];
  }

  /** Decomposition fails only on a table without columns, or when the first
      table's key column has no value to draw while a later table has rows. */
  lemma DecomposeFails(t: Table, st: Strategy, draw: (nat, nat) -> nat)
    requires Wf(t) && t.columns != []
    ensures var frame := CombineColumns(t, st).value;
      var ts := EntityTables(frame);
      Decompose(t, st, draw).Failure? <==>
        BasePool(ts[0]) == [] && exists j :: 1 <= j < |ts| && |ts[j].data.rows| > 0
  {
    AssignFails(CombineColumns(t, st).value, draw);
  }

  /** The linking step on the tables of a frame with columns fails exactly
      when the first table's key has no value while a later table has rows. */
  lemma AssignFails(frame: Table, draw: (nat, nat) -> nat)
    requires Wf(frame) && frame.columns != []
    ensures EntityTables(frame) != []
    ensures var ts := EntityTables(frame);
      AssignForeignKeys(ts, draw).Failure? <==>
        BasePool(ts[0]) == [] && exists j :: 1 <= j < |ts| && |ts[j].data.rows| > 0
  {
    var ts := EntityTables(frame);
    assert Prefix(frame.columns[0]) in GroupKeys(frame.columns, Prefix);
    EntityTablesShape(frame, 0);
    forall j | 1 <= j < |ts| ensures BaseKey(ts) !in ts[j].data.columns {
      BaseKeyOnlyInBase(frame, j);
    }
  }

  /** In a successful decomposition the first table is the first prefix
      group's table unchanged, and every later table gains the first table's
      key as a new last column and as its only foreign key. */
  lemma DecomposeLinks(t: Table, st: Strategy, draw: (nat, nat) -> nat, j: nat)
    requires Wf(t) && Decompose(t, st, draw).Success?
    requires 1 <= j < |Decompose(t, st, draw).value|
    ensures var ts := EntityTables(CombineColumns(t, st).value);
      var r := Decompose(t, st, draw).value;
      var pk := BaseKey(ts);
      && r[0] == ts[0]
      && r[j].columns == ts[j].columns + [pk]
      && r[j].foreignKeys == [ForeignKey(pk, ts[0].name, pk)]
  {
    var frame := CombineColumns(t, st).value;
    var ts := EntityTables(frame);
    BaseKeyOnlyInBase(frame, j);
    AssignForeignKeysLinks(ts, draw, j);
  }

  /** Linking leaves the first table as it is. */
  lemma AssignForeignKeysBase(ts: seq<EntityTable>, draw: (nat, nat) -> nat)
    requires forall k :: 0 <= k < |ts| ==> Valid(ts[k])
    requires AssignForeignKeys(ts, draw).Success? && ts != []
    ensures AssignForeignKeys(ts, draw).value != [] && AssignForeignKeys(ts, draw).value[0] == ts[0]
  {
  }

  /** The base table, the one every other table links to, is the group of
      the frame's first column and is named after that column; the frame's
      first column comes from the input's first column (`CombineColumnsFirst`). */
  lemma DecomposeBase(t: Table, st: Strategy, draw: (nat, nat) -> nat)
    requires Wf(t) && Decompose(t, st, draw).Success?
    ensures t.columns != [] && CombineColumns(t, st).Success?
    ensures var frame := CombineColumns(t, st).value;
      var r := Decompose(t, st, draw).value;
      && frame.columns != [] && r != []
      && r[0].columns == Members(frame.columns, Prefix, Prefix(frame.columns[0]))
      && r[0].columns[0] == frame.columns[0]
      && r[0].name == TableName(frame.columns[0])
      && r[0].foreignKeys == []
  {
    var frame := CombineColumns(t, st).value;
    var ts := EntityTables(frame);
    GroupKeysFirst(frame.columns, Prefix);
    EntityTablesShape(frame, 0);
    AssignFails(frame, draw);
    AssignForeignKeysBase(ts, draw);
  }
}
