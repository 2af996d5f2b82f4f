/** The entity-relationship diagram (`generate_er_diagram`): one pinned box
    per table on a circle, one pinned ellipse per column around its box, and
    one pinned diamond per foreign key whose target table is drawn. Angles
    are kept as exact fractions of a full turn; the cosine and sine that turn
    them into coordinates are not modelled. */
module ErGenerator {
  import opened Wrappers
  import opened Text
  import Decomposer

  // ----- Exact angles and lengths -----

  /** A non-negative rational `num / den`; angles are fractions of a turn. */
  datatype Fraction = Fraction(num: nat, den: nat)

  /** `a` lies strictly before `b` (cross-multiplied). */
  predicate Less(a: Fraction, b: Fraction) {
    a.num * b.den < b.num * a.den
  }

  /** `a` and `b` denote the same number. */
  predicate Same(a: Fraction, b: Fraction) {
    a.num * b.den == b.num * a.den
  }

  function Add(a: Fraction, b: Fraction): Fraction {
    Fraction(a.num * b.den + b.num * a.den, a.den * b.den)
  }

  /** Radius of the circle of tables, 10 units. */
  const EntityRadius := Fraction(10, 1)
  /** Distance of a column ellipse from its table, 2.6 units. */
  const AttributeRadius := Fraction(13, 5)
  /** Sideways shift of a diamond off the line between its tables, 1.2 units. */
  const DiamondOffset := Fraction(6, 5)
  /** A diamond label longer than this drops the referenced column. */
  const LabelLimit := 30

  // ----- The graph -----

  datatype Shape = Rectangle | Ellipse | Diamond

  /** Where a pinned node goes. `Polar` is `radius` away from `origin` (the
      middle of the drawing when `None`, else the named table) in direction
      `angle`; `Beside` is the midpoint of two tables, moved `offset` to the
      left of the direction from the first to the second. */
  datatype Placement =
    | Polar(origin: Option<string>, radius: Fraction, angle: Fraction)
    | Beside(from: string, to: string, offset: Fraction)

  datatype Node = Node(id: string, caption: string, shape: Shape, place: Placement)

  datatype Edge = Edge(from: string, to: string)

  /** The node and edge statements of the DOT source, in emission order. */
  datatype Graph = Graph(nodes: seq<Node>, edges: seq<Edge>)

  function Join(a: Graph, b: Graph): Graph {
    Graph(a.nodes + b.nodes, a.edges + b.edges)
  }

  /** How many nodes have shape `s`. */
  function CountShape(ns: seq<Node>, s: Shape): (c: nat)
    ensures c <= |ns|
    decreases |ns|
  {
    if ns == [] then 0 else (if ns[0].shape == s then 1 else 0) + CountShape(ns[1..], s)
  }

  lemma {:induction false} CountShapeAppend(a: seq<Node>, b: seq<Node>, s: Shape)
    ensures CountShape(a + b, s) == CountShape(a, s) + CountShape(b, s)
    decreases |a|
  {
    if a != [] {
      assert (a + b)[0] == a[0] && (a + b)[1..] == a[1..] + b;
      CountShapeAppend(a[1..], b, s);
    } else {
      assert a + b == b;
    }
  }

  /** Every node has one of the three shapes. */
  lemma {:induction false} CountShapesTotal(ns: seq<Node>)
    ensures CountShape(ns, Rectangle) + CountShape(ns, Ellipse) + CountShape(ns, Diamond) == |ns|
    decreases |ns|
  {
    if ns != [] {
      CountShapesTotal(ns[1..]);
    }
  }

  // ----- Tables and their columns -----

  /** Angle of the `idx`-th of `n` tables: `idx / n` of a turn. */
  function EntityAngle(idx: nat, n: nat): Fraction {
    Fraction(idx, n)
  }

  /** Angle of the `i`-th of `m` columns of the `idx`-th of `n` tables: the
      table's angle plus `i / (2 m)` of a turn when there are several columns,
      the table's angle when there is one. */
  function AttributeAngle(idx: nat, n: nat, i: nat, m: nat): Fraction {
    if m > 1 then Add(EntityAngle(idx, n), Fraction(i, 2 * m)) else EntityAngle(idx, n)
  }

  function EntityNode(name: string, idx: nat, n: nat): Node {
    Node(name, "<<B>" + name + "</B>>", Rectangle, Polar(None, EntityRadius, EntityAngle(idx, n)))
  }

  /** The id `{table}_{column}` of a column ellipse. */
  function AttributeId(name: string, col: string): string {
    name + "_" + col
  }

  function AttributeNode(name: string, cols: seq<string>, idx: nat, n: nat, i: nat): Node
    requires i < |cols|
  {
    Node(AttributeId(name, cols[i]), cols[i], Ellipse,
         Polar(Some(name), AttributeRadius, AttributeAngle(idx, n, i, |cols|)))
  }

  /** The box of one table followed by its column ellipses, and one edge from
      the box to each ellipse. */
  function TableBlock(t: Decomposer.EntityTable, idx: nat, n: nat): (g: Graph)
    ensures |g.nodes| == 1 + |t.columns| && |g.edges| == |t.columns|
    ensures g.nodes[0] == EntityNode(t.name, idx, n)
    ensures forall i :: 0 <= i < |t.columns| ==> g.nodes[1 + i] == AttributeNode(t.name, t.columns, idx, n, i)
    ensures forall i :: 0 <= i < |t.columns| ==> g.edges[i] == Edge(t.name, AttributeId(t.name, t.columns[i]))
  {
    var cols := t.columns;
    Graph([EntityNode(t.name, idx, n)]
            + seq(|cols|, i requires 0 <= i < |cols| => AttributeNode(t.name, cols, idx, n, i)),
          seq(|cols|, i requires 0 <= i < |cols| => Edge(t.name, AttributeId(t.name, cols[i]))))
  }

  /** Number of columns of the tables from position `idx` on. */
  function ColumnTotal(ts: seq<Decomposer.EntityTable>, idx: nat): nat
    requires idx <= |ts|
    decreases |ts| - idx
  {
    if idx == |ts| then 0 else |ts[idx].columns| + ColumnTotal(ts, idx + 1)
  }

  /** The first loop, from the `idx`-th table on. */
  function EntityPart(ts: seq<Decomposer.EntityTable>, idx: nat): (g: Graph)
    requires idx <= |ts|
    decreases |ts| - idx
  {
    if idx == |ts| then Graph([], []) else Join(TableBlock(ts[idx], idx, |ts|), EntityPart(ts, idx + 1))
  }

  /** The first loop draws one box per table and one ellipse and one edge per
      column, and nothing else. */
  lemma {:induction false} EntityPartCounts(ts: seq<Decomposer.EntityTable>, idx: nat)
    requires idx <= |ts|
    ensures CountShape(EntityPart(ts, idx).nodes, Rectangle) == |ts| - idx
    ensures CountShape(EntityPart(ts, idx).nodes, Ellipse) == ColumnTotal(ts, idx)
    ensures CountShape(EntityPart(ts, idx).nodes, Diamond) == 0
    ensures |EntityPart(ts, idx).edges| == ColumnTotal(ts, idx)
    decreases |ts| - idx
  {
    if idx < |ts| {
      EntityPartCounts(ts, idx + 1);
      var b := TableBlock(ts[idx], idx, |ts|);
      var rest := EntityPart(ts, idx + 1);
      TableBlockCounts(ts[idx], idx, |ts|);
      CountShapeAppend(b.nodes, rest.nodes, Rectangle);
      CountShapeAppend(b.nodes, rest.nodes, Ellipse);
      CountShapeAppend(b.nodes, rest.nodes, Diamond);
    }
  }

  /** One table's block: its box and one ellipse per column. */
  lemma TableBlockCounts(t: Decomposer.EntityTable, idx: nat, n: nat)
    ensures CountShape(TableBlock(t, idx, n).nodes, Rectangle) == 1
    ensures CountShape(TableBlock(t, idx, n).nodes, Ellipse) == |t.columns|
    ensures CountShape(TableBlock(t, idx, n).nodes, Diamond) == 0
  {
    var b := TableBlock(t, idx, n);
    var attrs := b.nodes[1..];
    assert b.nodes == [b.nodes[0]] + attrs;
    CountShapeAppend([b.nodes[0]], attrs, Rectangle);
    CountShapeAppend([b.nodes[0]], attrs, Ellipse);
    CountShapeAppend([b.nodes[0]], attrs, Diamond);
    AllEllipses(attrs);
    CountShapesTotal(attrs);
  }

  /** A run of column ellipses counts no other shape. */
  lemma {:induction false} AllEllipses(ns: seq<Node>)
    requires forall k :: 0 <= k < |ns| ==> ns[k].shape == Ellipse
    ensures CountShape(ns, Rectangle) == 0 && CountShape(ns, Diamond) == 0
    decreases |ns|
  {
    if ns != [] {
      AllEllipses(ns[1..]);
    }
  }

  /** The `j`-th table's box, each of its column ellipses and each box-to-ellipse
      edge are drawn. */
  lemma {:induction false} EntityPartHas(ts: seq<Decomposer.EntityTable>, idx: nat, j: nat)
    requires idx <= j < |ts|
    ensures EntityNode(ts[j].name, j, |ts|) in EntityPart(ts, idx).nodes
    ensures forall i :: 0 <= i < |ts[j].columns| ==>
      && AttributeNode(ts[j].name, ts[j].columns, j, |ts|, i) in EntityPart(ts, idx).nodes
      && Edge(ts[j].name, AttributeId(ts[j].name, ts[j].columns[i])) in EntityPart(ts, idx).edges
    decreases |ts| - idx
  {
    var b := TableBlock(ts[idx], idx, |ts|);
    if j == idx {
      assert b.nodes[0] in b.nodes;
      forall i | 0 <= i < |ts[j].columns|
        ensures AttributeNode(ts[j].name, ts[j].columns, j, |ts|, i) in b.nodes
        ensures Edge(ts[j].name, AttributeId(ts[j].name, ts[j].columns[i])) in b.edges
      {
        assert b.nodes[1 + i] in b.nodes;
        assert b.edges[i] in b.edges;
      }
    } else {
      EntityPartHas(ts, idx + 1, j);
    }
  }

  // ----- Foreign-key diamonds -----

  /** The id `FK_{src}_to_{tgt}_{i}` of the diamond for the `i`-th foreign key. */
  function DiamondId(src: string, tgt: string, i: nat): string {
    "FK_" + src + "_to_" + tgt + "_" + NatToString(i)
  }

  /** `{column} → {ref_table}.{ref_column}`, or `{column} → {ref_table}` when
      that is longer than 30 characters. */
  function DiamondLabel(fk: Decomposer.ForeignKey): (l: string)
    ensures |l| >= |fk.column + " → " + fk.refTable|
    ensures l[..|fk.column + " → " + fk.refTable|] == fk.column + " → " + fk.refTable
    ensures l == fk.column + " → " + fk.refTable + "." + fk.refColumn
        <==> |fk.column + " → " + fk.refTable + "." + fk.refColumn| <= LabelLimit
  {
    var short := fk.column + " → " + fk.refTable;
    var long := short + "." + fk.refColumn;
    assert long[..|short|] == short;
    if |long| > LabelLimit then short else long
  }

  function DiamondNode(src: string, i: nat, fk: Decomposer.ForeignKey): Node {
    Node(DiamondId(src, fk.refTable, i), DiamondLabel(fk), Diamond,
         Beside(src, fk.refTable, DiamondOffset))
  }

  /** Each diamond is `Beside` two tables and is followed, in the edge list,
      by exactly one edge from each of them. */
  predicate Wired(g: Graph) {
    && |g.edges| == 2 * |g.nodes|
    && forall k :: 0 <= k < |g.nodes| ==>
         && g.nodes[k].place.Beside?
         && g.edges[2 * k] == Edge(g.nodes[k].place.from, g.nodes[k].id)
         && g.edges[2 * k + 1] == Edge(g.nodes[k].place.to, g.nodes[k].id)
  }

  lemma JoinWired(a: Graph, b: Graph)
    requires Wired(a) && Wired(b)
    ensures Wired(Join(a, b))
  {
    var g := Join(a, b);
    forall k | |a.nodes| <= k < |g.nodes|
      ensures g.edges[2 * k] == b.edges[2 * (k - |a.nodes|)]
      ensures g.edges[2 * k + 1] == b.edges[2 * (k - |a.nodes|) + 1]
    {
    }
  }

  /** The second loop for one table, from its `i`-th foreign key on: a
      diamond and its two edges for each key whose target is drawn. */
  function TableDiamonds(src: string, fks: seq<Decomposer.ForeignKey>, drawn: seq<string>, i: nat): (g: Graph)
    requires i <= |fks|
    ensures Wired(g)
    ensures forall x :: x in g.nodes ==> x.shape == Diamond && x.place.from == src && x.place.to in drawn
    decreases |fks| - i
  {
    if i == |fks| then Graph([], [])
    else
      var rest := TableDiamonds(src, fks, drawn, i + 1);
      if fks[i].refTable in drawn then
        var d := DiamondNode(src, i, fks[i]);
        var here := Graph([d], [Edge(src, d.id), Edge(fks[i].refTable, d.id)]);
        JoinWired(here, rest);
        Join(here, rest)
      else rest
  }

  /** Number of foreign keys, from the `i`-th on, whose target is drawn. */
  function DrawnKeys(fks: seq<Decomposer.ForeignKey>, drawn: seq<string>, i: nat): nat
    requires i <= |fks|
    decreases |fks| - i
  {
    if i == |fks| then 0 else (if fks[i].refTable in drawn then 1 else 0) + DrawnKeys(fks, drawn, i + 1)
  }

  /** One diamond per foreign key with a drawn target, and a foreign key gets
      its diamond exactly when its target is drawn. */
  lemma TableDiamondsHas(src: string, fks: seq<Decomposer.ForeignKey>, drawn: seq<string>, i: nat)
    requires i <= |fks|
    ensures |TableDiamonds(src, fks, drawn, i).nodes| == DrawnKeys(fks, drawn, i)
    ensures forall k :: i <= k < |fks| ==>
      (DiamondNode(src, k, fks[k]) in TableDiamonds(src, fks, drawn, i).nodes <==> fks[k].refTable in drawn)
  {
    TableDiamondsCount(src, fks, drawn, i);
    forall k | i <= k < |fks| && fks[k].refTable in drawn
      ensures DiamondNode(src, k, fks[k]) in TableDiamonds(src, fks, drawn, i).nodes
    {
      TableDiamondsMember(src, fks, drawn, i, k);
    }
  }

  /** One diamond per foreign key with a drawn target. */
  lemma {:induction false} TableDiamondsCount(src: string, fks: seq<Decomposer.ForeignKey>, drawn: seq<string>, i: nat)
    requires i <= |fks|
    ensures |TableDiamonds(src, fks, drawn, i).nodes| == DrawnKeys(fks, drawn, i)
    decreases |fks| - i
  {
    if i < |fks| {
      TableDiamondsCount(src, fks, drawn, i + 1);
      TableDiamondsStep(src, fks, drawn, i);
    }
  }

  /** A foreign key with a drawn target gets its diamond. */
  lemma {:induction false} TableDiamondsMember(src: string, fks: seq<Decomposer.ForeignKey>, drawn: seq<string>, i: nat, k: nat)
    requires i <= k < |fks| && fks[k].refTable in drawn
    ensures DiamondNode(src, k, fks[k]) in TableDiamonds(src, fks, drawn, i).nodes
    decreases k - i
  {
    TableDiamondsStep(src, fks, drawn, i);
    if k > i {
      TableDiamondsMember(src, fks, drawn, i + 1, k);
    }
  }

  /** The nodes of one pass: the diamond of the `i`-th key, if drawn, then
      the rest. */
  lemma TableDiamondsStep(src: string, fks: seq<Decomposer.ForeignKey>, drawn: seq<string>, i: nat)
    requires i < |fks|
    ensures TableDiamonds(src, fks, drawn, i).nodes ==
      (if fks[i].refTable in drawn then [DiamondNode(src, i, fks[i])] else []) + TableDiamonds(src, fks, drawn, i + 1).nodes
  {
  }

  /** The second loop, from the `idx`-th table on. */
  function DiamondPart(ts: seq<Decomposer.EntityTable>, idx: nat, drawn: seq<string>): (g: Graph)
    requires idx <= |ts|
    ensures Wired(g)
    ensures forall x :: x in g.nodes ==> x.shape == Diamond && x.place.to in drawn
    decreases |ts| - idx
  {
    if idx == |ts| then Graph([], [])
    else
      var here := TableDiamonds(ts[idx].name, ts[idx].foreignKeys, drawn, 0);
      var rest := DiamondPart(ts, idx + 1, drawn);
      JoinWired(here, rest);
      Join(here, rest)
  }

  /** Number of foreign keys with a drawn target, over the tables from `idx` on. */
  function DrawnTotal(ts: seq<Decomposer.EntityTable>, idx: nat, drawn: seq<string>): nat
    requires idx <= |ts|
    decreases |ts| - idx
  {
    if idx == |ts| then 0 else DrawnKeys(ts[idx].foreignKeys, drawn, 0) + DrawnTotal(ts, idx + 1, drawn)
  }

  lemma {:induction false} DiamondPartHas(ts: seq<Decomposer.EntityTable>, idx: nat, drawn: seq<string>, j: nat)
    requires idx <= |ts|
    ensures |DiamondPart(ts, idx, drawn).nodes| == DrawnTotal(ts, idx, drawn)
    ensures idx <= j < |ts| ==> forall k :: 0 <= k < |ts[j].foreignKeys| && ts[j].foreignKeys[k].refTable in drawn ==>
      DiamondNode(ts[j].name, k, ts[j].foreignKeys[k]) in DiamondPart(ts, idx, drawn).nodes
    decreases |ts| - idx
  {
    if idx < |ts| {
      DiamondPartHas(ts, idx + 1, drawn, j);
      TableDiamondsHas(ts[idx].name, ts[idx].foreignKeys, drawn, 0);
    }
  }

  lemma {:induction false} AllDiamonds(ns: seq<Node>)
    requires forall x :: x in ns ==> x.shape == Diamond
    ensures CountShape(ns, Diamond) == |ns|
    decreases |ns|
  {
    if ns != [] {
      assert ns[0] in ns;
      AllDiamonds(ns[1..]);
    }
  }

  // ----- The whole diagram -----

  /** The keys of `entity_positions`: the names of the tables drawn. */
  function TableNames(ts: seq<Decomposer.EntityTable>): (ns: seq<string>)
    ensures |ns| == |ts| && forall j :: 0 <= j < |ts| ==> ns[j] == ts[j].name
  {
    seq(|ts|, j requires 0 <= j < |ts| => ts[j].name)
  }

  function ErGraph(ts: seq<Decomposer.EntityTable>): Graph {
    Join(EntityPart(ts, 0), DiamondPart(ts, 0, TableNames(ts)))
  }

  /** Exactly one box per table, one ellipse and one edge per column, one
      diamond and two edges per foreign key whose target is a table of the
      diagram, and no other node or edge. */
  lemma ErGraphCounts(ts: seq<Decomposer.EntityTable>)
    ensures CountShape(ErGraph(ts).nodes, Rectangle) == |ts|
    ensures CountShape(ErGraph(ts).nodes, Ellipse) == ColumnTotal(ts, 0)
    ensures CountShape(ErGraph(ts).nodes, Diamond) == DrawnTotal(ts, 0, TableNames(ts))
    ensures |ErGraph(ts).nodes| == |ts| + ColumnTotal(ts, 0) + DrawnTotal(ts, 0, TableNames(ts))
    ensures |ErGraph(ts).edges| == ColumnTotal(ts, 0) + 2 * DrawnTotal(ts, 0, TableNames(ts))
  {
    var e := EntityPart(ts, 0);
    var d := DiamondPart(ts, 0, TableNames(ts));
    EntityPartCounts(ts, 0);
    DiamondPartCounts(ts, TableNames(ts));
    CountShapesTotal(e.nodes);
    JoinCounts(e, d);
  }

  /** Joining two graphs adds up their counts. */
  lemma JoinCounts(a: Graph, b: Graph)
    ensures CountShape(Join(a, b).nodes, Rectangle) == CountShape(a.nodes, Rectangle) + CountShape(b.nodes, Rectangle)
    ensures CountShape(Join(a, b).nodes, Ellipse) == CountShape(a.nodes, Ellipse) + CountShape(b.nodes, Ellipse)
    ensures CountShape(Join(a, b).nodes, Diamond) == CountShape(a.nodes, Diamond) + CountShape(b.nodes, Diamond)
    ensures |Join(a, b).nodes| == |a.nodes| + |b.nodes| && |Join(a, b).edges| == |a.edges| + |b.edges|
  {
    CountShapeAppend(a.nodes, b.nodes, Rectangle);
    CountShapeAppend(a.nodes, b.nodes, Ellipse);
    CountShapeAppend(a.nodes, b.nodes, Diamond);
  }

  /** The second loop draws only diamonds, one per drawn key. */
  lemma DiamondPartCounts(ts: seq<Decomposer.EntityTable>, drawn: seq<string>)
    ensures CountShape(DiamondPart(ts, 0, drawn).nodes, Diamond) == DrawnTotal(ts, 0, drawn)
    ensures CountShape(DiamondPart(ts, 0, drawn).nodes, Rectangle) == 0
    ensures CountShape(DiamondPart(ts, 0, drawn).nodes, Ellipse) == 0
    ensures |DiamondPart(ts, 0, drawn).nodes| == DrawnTotal(ts, 0, drawn)
    ensures |DiamondPart(ts, 0, drawn).edges| == 2 * DrawnTotal(ts, 0, drawn)
  {
    var d := DiamondPart(ts, 0, drawn);
    DiamondPartHas(ts, 0, drawn, 0);
    AllDiamonds(d.nodes);
    CountShapesTotal(d.nodes);
  }

  /** The `j`-th table is a box at `j / n` of a turn on the big circle, with
      an ellipse per column around it and an edge to each. */
  lemma ErGraphTable(ts: seq<Decomposer.EntityTable>, j: nat)
    requires j < |ts|
    ensures EntityNode(ts[j].name, j, |ts|) in ErGraph(ts).nodes
    ensures forall i :: 0 <= i < |ts[j].columns| ==>
      && AttributeNode(ts[j].name, ts[j].columns, j, |ts|, i) in ErGraph(ts).nodes
      && Edge(ts[j].name, AttributeId(ts[j].name, ts[j].columns[i])) in ErGraph(ts).edges
  {
    EntityPartHas(ts, 0, j);
  }

  /** The `k`-th foreign key of the `j`-th table has a diamond exactly when
      the table it references is one of the diagram's tables; every diamond
      lies beside a drawn table and is joined by two edges, one from each of
      its tables. */
  lemma ErGraphDiamonds(ts: seq<Decomposer.EntityTable>, j: nat, k: nat)
    requires j < |ts| && k < |ts[j].foreignKeys|
    ensures DiamondNode(ts[j].name, k, ts[j].foreignKeys[k]) in ErGraph(ts).nodes
        <==> ts[j].foreignKeys[k].refTable in TableNames(ts)
    ensures Wired(DiamondPart(ts, 0, TableNames(ts)))
    ensures |ErGraph(ts).edges| >= ColumnTotal(ts, 0)
    ensures ErGraph(ts).edges[ColumnTotal(ts, 0)..] == DiamondPart(ts, 0, TableNames(ts)).edges
  {
    var drawn := TableNames(ts);
    var e := EntityPart(ts, 0);
    var d := DiamondPart(ts, 0, drawn);
    var x := DiamondNode(ts[j].name, k, ts[j].foreignKeys[k]);
    DiamondPartHas(ts, 0, drawn, j);
    EntityPartCounts(ts, 0);
    EntityPartNoDiamond(ts, 0);
    if x in ErGraph(ts).nodes {
      if x in e.nodes {
        assert false;
      }
      assert x in d.nodes;
    }
    assert ErGraph(ts).edges == e.edges + d.edges;
  }

  lemma {:induction false} EntityPartNoDiamond(ts: seq<Decomposer.EntityTable>, idx: nat)
    requires idx <= |ts|
    ensures forall x :: x in EntityPart(ts, idx).nodes ==> x.shape != Diamond
    decreases |ts| - idx
  {
    if idx < |ts| {
      EntityPartNoDiamond(ts, idx + 1);
      var b := TableBlock(ts[idx], idx, |ts|);
      assert forall x :: x in b.nodes ==> x.shape != Diamond by {
        forall x | x in b.nodes ensures x.shape != Diamond {
          var p :| 0 <= p < |b.nodes| && b.nodes[p] == x;
          if p > 0 {
            assert b.nodes[1 + (p - 1)] == x;
          }
        }
      }
    }
  }

  // ----- Angles -----

  /** The tables sit at distinct angles in `[0, 1)` of a turn, in list order. */
  lemma EntityAnglesOrdered(j: nat, j2: nat, n: nat)
    requires j < j2 < n
    ensures Less(EntityAngle(j, n), EntityAngle(j2, n))
    ensures Less(EntityAngle(j2, n), Fraction(1, 1))
  {
    assert j * n < j2 * n;
  }

  /** With several columns, the ellipses fan out in column order over the half
      turn that starts at their table's own angle. */
  lemma AttributeFan(idx: nat, n: nat, i: nat, i2: nat, m: nat)
    requires idx < n && i < i2 < m && m > 1
    ensures !Less(AttributeAngle(idx, n, i, m), EntityAngle(idx, n))
    ensures Less(AttributeAngle(idx, n, i, m), AttributeAngle(idx, n, i2, m))
    ensures Less(AttributeAngle(idx, n, i2, m), Add(EntityAngle(idx, n), Fraction(1, 2)))
  {
    var a := AttributeAngle(idx, n, i, m);
    var a2 := AttributeAngle(idx, n, i2, m);
    assert a == Fraction(idx * (2 * m) + i * n, n * (2 * m));
    assert a2 == Fraction(idx * (2 * m) + i2 * n, n * (2 * m));
    var half := Add(EntityAngle(idx, n), Fraction(1, 2));
    assert half == Fraction(idx * 2 + n, n * 2);
    FanOrder(idx, n, i, i2, m);
    FanBelow(idx, n, i2, m);
    FanFrom(idx, n, i, m);
  }

  lemma FanFrom(idx: nat, n: nat, i: nat, m: nat)
    requires n > 0 && m > 0
    ensures (idx * (2 * m) + i * n) * n >= idx * (n * (2 * m))
  {
    assert (idx * (2 * m) + i * n) * n == idx * (n * (2 * m)) + i * n * n;
  }

  lemma FanOrder(idx: nat, n: nat, i: nat, i2: nat, m: nat)
    requires n > 0 && m > 0 && i < i2
    ensures (idx * (2 * m) + i * n) * (n * (2 * m)) < (idx * (2 * m) + i2 * n) * (n * (2 * m))
  {
    var d := n * (2 * m);
    assert d > 0;
    assert i * n < i2 * n;
    assert idx * (2 * m) + i * n < idx * (2 * m) + i2 * n;
  }

  lemma FanBelow(idx: nat, n: nat, i: nat, m: nat)
    requires n > 0 && i < m
    ensures (idx * (2 * m) + i * n) * (n * 2) < (idx * 2 + n) * (n * (2 * m))
  {
    assert (idx * (2 * m) + i * n) * (n * 2) == idx * m * n * 4 + i * n * n * 2;
    assert (idx * 2 + n) * (n * (2 * m)) == idx * m * n * 4 + m * n * n * 2;
    assert i * (n * n * 2) < m * (n * n * 2);
  }

  /** A lone column's ellipse points the same way as its table. */
  lemma LoneAttributeAngle(idx: nat, n: nat)
    ensures AttributeAngle(idx, n, 0, 1) == EntityAngle(idx, n)
  {
  }

  // ----- Output -----

  /** `f"{output_folder}/{filename}"` with the format's extension appended. */
  function OutputPath(folder: string, filename: string, format: string): (p: string)
    ensures |p| == |folder| + |filename| + |format| + 2
    ensures p[..|folder|] == folder && p[|folder|] == '/'
    ensures p[|folder| + 1..|p| - |format| - 1] == filename
    ensures p[|p| - |format| - 1] == '.' && p[|p| - |format|..] == format
  {
    var p := folder + "/" + filename + "." + format;
    assert p[|folder| + 1..|p| - |format| - 1] == filename;
    p
  }

  /** What `generate_er_diagram` hands to Graphviz and returns. */
  datatype Diagram = Diagram(graph: Graph, path: string)

  function GenerateErDiagram(ts: seq<Decomposer.EntityTable>, folder: string, filename: string, format: string): (d: Diagram)
    ensures d.graph == ErGraph(ts) && d.path == OutputPath(folder, filename, format)
  {
    Diagram(ErGraph(ts), OutputPath(folder, filename, format))
  }
}
