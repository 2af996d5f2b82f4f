/** Functional-dependency discovery (`FunctionalDependencyChecker`):
    the group-by determinacy test `check_fd` and the exhaustive search
    `find_all_fds` over left-hand sides of bounded size. */
module FdChecker {
  import opened Wrappers
  import opened Seqs
  import opened Tables

  /** A dependency `lhs -> rhs`; the search only produces single-column `rhs`. */
  datatype Fd = Fd(lhs: seq<string>, rhs: seq<string>)

  predicate Names(t: Table, x: seq<string>) {
    forall k :: 0 <= k < |x| ==> x[k] in t.columns
  }

  /** The group-by key of a row: its `x` values, or `None` when one of them
      is missing, because pandas' `groupby` drops such rows by default. */
  function GroupKey(cols: seq<string>, x: seq<string>, r: Row): Option<seq<string>>
    requires |r| == |cols| && forall k :: 0 <= k < |x| ==> x[k] in cols
  {
    if forall k :: 0 <= k < |x| ==> r[FirstIndex(cols, x[k])].Some?
    then Some(seq(|x|, k requires 0 <= k < |x| => r[FirstIndex(cols, x[k])].value))
    else None
  }

  /** `df.groupby(x)[[y]]`: every key some row has, with the set of `y` cells
      of its rows. A missing `y` is the cell `None`, one value among the
      others, as `nunique(dropna=False)` counts it. */
  function Groups(t: Table, x: seq<string>, y: string): map<seq<string>, set<Cell>>
    requires Wf(t) && Names(t, x) && y in t.columns
  {
    var keys := set i | 0 <= i < |t.rows| && GroupKey(t.columns, x, t.rows[i]).Some? :: GroupKey(t.columns, x, t.rows[i]).value;
    map k | k in keys ::
      set i | 0 <= i < |t.rows| && GroupKey(t.columns, x, t.rows[i]) == Some(k) :: Get(t, t.rows[i], y)
  }

  /** Reference semantics of `x -> y`: two rows whose `x` values are all
      present and equal hold the same `y` cell (missing equals missing). */
  ghost predicate Determines(t: Table, x: seq<string>, y: string)
    requires Wf(t) && Names(t, x) && y in t.columns
  {
    forall i, j :: 0 <= i < |t.rows| && 0 <= j < |t.rows|
      && GroupKey(t.columns, x, t.rows[i]).Some? && GroupKey(t.columns, x, t.rows[i]) == GroupKey(t.columns, x, t.rows[j])
      ==> Get(t, t.rows[i], y) == Get(t, t.rows[j], y)
  }

  lemma AtMostOne<T>(s: set<T>, a: T, b: T)
    requires |s| <= 1 && a in s && b in s
    ensures a == b
  {
    if a != b {
      assert {a, b} <= s;
      assert |{a, b}| == 2;
      SubsetCard({a, b}, s);
    }
  }

  lemma SubsetCard<T>(a: set<T>, b: set<T>)
    requires a <= b
    ensures |a| <= |b|
  {
    assert b == a + (b - a);
  }

  /** Every group has at most one distinct `y` exactly when `x -> y` holds. */
  lemma CheckFdIff(t: Table, x: seq<string>, y: string)
    requires Wf(t) && Names(t, x) && y in t.columns
    ensures (forall k :: k in Groups(t, x, y) ==> |Groups(t, x, y)[k]| <= 1) <==> Determines(t, x, y)
  {
    var g := Groups(t, x, y);
    if forall k :: k in g ==> |g[k]| <= 1 {
      forall i, j | 0 <= i < |t.rows| && 0 <= j < |t.rows|
        && GroupKey(t.columns, x, t.rows[i]).Some? && GroupKey(t.columns, x, t.rows[i]) == GroupKey(t.columns, x, t.rows[j])
        ensures Get(t, t.rows[i], y) == Get(t, t.rows[j], y)
      {
        var k := GroupKey(t.columns, x, t.rows[i]).value;
        assert k in g;
        AtMostOne(g[k], Get(t, t.rows[i], y), Get(t, t.rows[j], y));
      }
    }
    if Determines(t, x, y) {
      forall k | k in g ensures |g[k]| <= 1 {
        var i :| 0 <= i < |t.rows| && GroupKey(t.columns, x, t.rows[i]) == Some(k);
        var v := Get(t, t.rows[i], y);
        assert g[k] <= {v};
        SubsetCard(g[k], {v});
      }
    }
  }

  /** `check_fd(x, [y])`: `nunique(dropna=False)` is at most one in every group. */
  function CheckFd(t: Table, x: seq<string>, y: string): (ok: bool)
    requires Wf(t) && Names(t, x) && y in t.columns
    ensures ok <==> Determines(t, x, y)
  {
    var g := Groups(t, x, y);
    CheckFdIff(t, x, y);
    forall k :: k in g ==> |g[k]| <= 1
  }

  /** A missing right-hand value counts as one value: a column missing in
      every row is determined by any left-hand side. */
  lemma AllMissingRhsPasses(t: Table, x: seq<string>, y: string)
    requires Wf(t) && Names(t, x) && y in t.columns
    requires forall i :: 0 <= i < |t.rows| ==> Get(t, t.rows[i], y).None?
    ensures CheckFd(t, x, y)
  {
  }

  /** A row with a missing left-hand value belongs to no group: adding it
      never changes the verdict. */
  lemma MissingLhsRowIgnored(t: Table, x: seq<string>, y: string, r: Row)
    requires Wf(t) && Names(t, x) && y in t.columns && |r| == |t.columns|
    requires exists k :: 0 <= k < |x| && Get(t, r, x[k]).None?
    ensures Wf(Table(t.columns, t.rows + [r]))
    ensures CheckFd(Table(t.columns, t.rows + [r]), x, y) == CheckFd(t, x, y)
  {
    var t' := Table(t.columns, t.rows + [r]);
    assert GroupKey(t'.columns, x, r).None?;
    forall i | 0 <= i < |t.rows| ensures t'.rows[i] == t.rows[i] && GroupKey(t'.columns, x, t.rows[i]) == GroupKey(t.columns, x, t.rows[i]) {
    }
    if Determines(t, x, y) {
      forall i, j | 0 <= i < |t'.rows| && 0 <= j < |t'.rows|
        && GroupKey(t'.columns, x, t'.rows[i]).Some? && GroupKey(t'.columns, x, t'.rows[i]) == GroupKey(t'.columns, x, t'.rows[j])
        ensures Get(t', t'.rows[i], y) == Get(t', t'.rows[j], y)
      {
        assert i < |t.rows| && j < |t.rows|;
      }
    }
    if Determines(t', x, y) {
      forall i, j | 0 <= i < |t.rows| && 0 <= j < |t.rows|
        && GroupKey(t.columns, x, t.rows[i]).Some? && GroupKey(t.columns, x, t.rows[i]) == GroupKey(t.columns, x, t.rows[j])
        ensures Get(t, t.rows[i], y) == Get(t, t.rows[j], y)
      {
        assert t'.rows[i] == t.rows[i] && t'.rows[j] == t.rows[j];
      }
    }
  }

  /** Each sequence of `ws` with `h` put in front. */
  function Prefixed(h: string, ws: seq<seq<string>>): (ps: seq<seq<string>>)
    ensures |ps| == |ws|
    decreases |ws|
  {
    if ws == [] then [] else [[h] + ws[0]] + Prefixed(h, ws[1..])
  }

  lemma {:induction false} PrefixedAt(h: string, ws: seq<seq<string>>, k: nat)
    requires k < |ws|
    ensures Prefixed(h, ws)[k] == [h] + ws[k]
    decreases |ws|
  {
    if k > 0 {
      PrefixedAt(h, ws[1..], k - 1);
    }
  }

  lemma PrefixedMember(h: string, ws: seq<seq<string>>, c: seq<string>)
    ensures c in Prefixed(h, ws) <==> c != [] && c[0] == h && c[1..] in ws
  {
    var ps := Prefixed(h, ws);
    if c in ps {
      var k :| 0 <= k < |ps| && ps[k] == c;
      PrefixedAt(h, ws, k);
      assert c[1..] == ws[k];
    }
    if c != [] && c[0] == h && c[1..] in ws {
      var k :| 0 <= k < |ws| && ws[k] == c[1..];
      PrefixedAt(h, ws, k);
      assert ps[k] == c;
    }
  }

  /** `itertools.combinations(s, r)`: the `r`-element sub-sequences of `s`
      in lexicographic order of their positions. */
  function Combinations(s: seq<string>, r: nat): (cs: seq<seq<string>>)
    ensures r == 0 ==> cs == [[]]
    decreases |s|
  {
    if r == 0 then [[]]
    else if s == [] then []
    else Prefixed(s[0], Combinations(s[1..], r - 1)) + Combinations(s[1..], r)
  }


  /** A combination either takes the first element of `s` or avoids it. */
  lemma CombinationsMember(s: seq<string>, r: nat, c: seq<string>)
    requires r > 0 && s != []
    ensures c in Combinations(s, r) <==>
      c in Prefixed(s[0], Combinations(s[1..], r - 1)) || c in Combinations(s[1..], r)
  {
    InAppend(Prefixed(s[0], Combinations(s[1..], r - 1)), Combinations(s[1..], r), c);
  }

  /** The combinations are exactly the sub-sequences of length `r`. */
  lemma CombinationsIff(s: seq<string>, r: nat, c: seq<string>)
    ensures c in Combinations(s, r) <==> |c| == r && IsSubseq(c, s)
  {
    if c in Combinations(s, r) {
      CombinationsSound(s, r, c);
    }
    if |c| == r && IsSubseq(c, s) {
      CombinationsComplete(s, r, c);
    }
  }

  lemma {:induction false} CombinationsSound(s: seq<string>, r: nat, c: seq<string>)
    requires c in Combinations(s, r)
    ensures |c| == r && IsSubseq(c, s)
    decreases |s|
  {
    if r > 0 && s != [] {
      var withHead := Combinations(s[1..], r - 1);
      CombinationsMember(s, r, c);
      PrefixedMember(s[0], withHead, c);
      if c in Prefixed(s[0], withHead) {
        CombinationsSound(s[1..], r - 1, c[1..]);
        SubseqStep(c, s);
      } else {
        CombinationsSound(s[1..], r, c);
        SubseqStep(c, s);
      }
    }
  }

  lemma {:induction false} CombinationsComplete(s: seq<string>, r: nat, c: seq<string>)
    requires |c| == r && IsSubseq(c, s)
    ensures c in Combinations(s, r)
    decreases |s|
  {
    if r > 0 {
      SubseqNonEmpty(c, s);
      SubseqStep(c, s);
      if c[0] == s[0] && IsSubseq(c[1..], s[1..]) {
        CombinationsComplete(s[1..], r - 1, c[1..]);
        CombinationsTakeHead(s, r, c);
      } else {
        CombinationsComplete(s[1..], r, c);
        CombinationsSkipHead(s, r, c);
      }
    } else {
      assert c == [];
    }
  }

  lemma CombinationsTakeHead(s: seq<string>, r: nat, c: seq<string>)
    requires r > 0 && s != [] && c != [] && c[0] == s[0] && c[1..] in Combinations(s[1..], r - 1)
    ensures c in Combinations(s, r)
  {
    CombinationsMember(s, r, c);
    PrefixedMember(s[0], Combinations(s[1..], r - 1), c);
  }

  lemma CombinationsSkipHead(s: seq<string>, r: nat, c: seq<string>)
    requires r > 0 && s != [] && c in Combinations(s[1..], r)
    ensures c in Combinations(s, r)
  {
    CombinationsMember(s, r, c);
  }

  /** Elements of a sub-sequence are elements of the sequence. */
  lemma {:induction false} SubseqMembers(a: seq<string>, b: seq<string>)
    requires IsSubseq(a, b)
    ensures forall k :: 0 <= k < |a| ==> a[k] in b
    decreases |b|
  {
    if a != [] {
      if a[0] == b[0] {
        SubseqMembers(a[1..], b[1..]);
        TailIndex(a);
      } else {
        SubseqMembers(a, b[1..]);
      }
    }
  }

  /** Every combination has `r` columns, each a column of `s`. */
  lemma CombinationsShape(s: seq<string>, r: nat, c: seq<string>)
    requires c in Combinations(s, r)
    ensures |c| == r && forall j :: 0 <= j < |c| ==> c[j] in s
  {
    CombinationsIff(s, r, c);
    SubseqMembers(c, s);
  }

  /** Over distinct columns, no combination is listed twice. */
  lemma {:induction false} CombinationsNoDup(s: seq<string>, r: nat)
    requires NoDup(s)
    ensures NoDup(Combinations(s, r))
    decreases |s|
  {
    if r > 0 && s != [] {
      var withHead := Combinations(s[1..], r - 1);
      var withoutHead := Combinations(s[1..], r);
      var prefixed := Prefixed(s[0], withHead);
      NoDupTail(s);
      CombinationsNoDup(s[1..], r - 1);
      CombinationsNoDup(s[1..], r);
      assert NoDup(prefixed) by {
        forall i, j | 0 <= i < j < |prefixed| ensures prefixed[i] != prefixed[j] {
          PrefixedAt(s[0], withHead, i);
          PrefixedAt(s[0], withHead, j);
          assert prefixed[i][1..] == withHead[i];
          assert prefixed[j][1..] == withHead[j];
        }
      }
      forall y | y in prefixed ensures y !in withoutHead {
        PrefixedMember(s[0], withHead, y);
        if y in withoutHead {
          CombinationsShape(s[1..], r, y);
        }
      }
      NoDupAppend(prefixed, withoutHead);
    }
  }

  /** A dependency the search may report: non-empty left-hand side of at
      most `m` columns in table order, one right-hand column outside it. */
  predicate Candidate(t: Table, m: int, fd: Fd) {
    && 1 <= |fd.lhs| <= m
    && IsSubseq(fd.lhs, t.columns)
    && |fd.rhs| == 1 && fd.rhs[0] in t.columns && fd.rhs[0] !in fd.lhs
  }

  /** `Candidate` and the dependency holds in `t`. */
  ghost predicate Holds(t: Table, fd: Fd)
    requires Wf(t)
  {
    && Names(t, fd.lhs) && |fd.rhs| == 1 && fd.rhs[0] in t.columns
    && Determines(t, fd.lhs, fd.rhs[0])
  }

  /** The inner loop of `find_all_fds` for one left-hand side `x`: each
      candidate `y` of `ys` not in `x`, in order, kept when `check_fd` holds. */
  function RhsFds(t: Table, x: seq<string>, ys: seq<string>): (fds: seq<Fd>)
    requires Wf(t) && Names(t, x) && forall k :: 0 <= k < |ys| ==> ys[k] in t.columns
    ensures |fds| <= |ys|
    decreases |ys|
  {
    if ys == [] then []
    else
      (if ys[0] !in x && CheckFd(t, x, ys[0]) then [Fd(x, [ys[0]])] else [])
      + RhsFds(t, x, ys[1..])
  }

  /** `RhsFds` reports `x -> y` exactly for the `y` of `ys` outside `x` that
      `x` determines, and lists no dependency twice when `ys` has no
      repetition. */
  lemma {:induction false} RhsFdsSpec(t: Table, x: seq<string>, ys: seq<string>)
    requires Wf(t) && Names(t, x) && forall k :: 0 <= k < |ys| ==> ys[k] in t.columns
    ensures forall fd :: fd in RhsFds(t, x, ys) <==>
      fd.lhs == x && |fd.rhs| == 1 && fd.rhs[0] in ys && fd.rhs[0] !in x && Determines(t, x, fd.rhs[0])
    ensures NoDup(ys) ==> NoDup(RhsFds(t, x, ys))
    decreases |ys|
  {
    if ys != [] {
      var y := ys[0];
      var here := if y !in x && CheckFd(t, x, y) then [Fd(x, [y])] else [];
      var rest := RhsFds(t, x, ys[1..]);
      RhsFdsSpec(t, x, ys[1..]);
      MemberCons(ys);
      MemberAppend(here, rest);
      forall fd: Fd | fd.lhs == x && |fd.rhs| == 1 && fd.rhs[0] == y && fd.rhs[0] !in x && Determines(t, x, y)
        ensures fd in here
      {
        assert fd == Fd(x, [y]);
      }
      if NoDup(ys) {
        NoDupTail(ys);
        NoDupAppend(here, rest);
      }
    }
  }


  /** The loop over one list of left-hand sides. */
  function LhsFds(t: Table, xs: seq<seq<string>>): (fds: seq<Fd>)
    requires Wf(t)
    decreases |xs|
  {
    if xs == [] then [] else (if Names(t, xs[0]) then RhsFds(t, xs[0], t.columns) else []) + LhsFds(t, xs[1..])
  }

  /** `LhsFds` reports `x -> y` exactly for the `x` of `xs` and the columns
      `y` outside `x` that `x` determines, without repetition when `xs` has
      none. */
  lemma {:induction false} LhsFdsSpec(t: Table, xs: seq<seq<string>>)
    requires Wf(t) && forall k :: 0 <= k < |xs| ==> Names(t, xs[k])
    ensures forall fd :: fd in LhsFds(t, xs) <==>
      fd.lhs in xs && |fd.rhs| == 1 && fd.rhs[0] in t.columns && fd.rhs[0] !in fd.lhs
      && Determines(t, fd.lhs, fd.rhs[0])
    ensures NoDup(xs) ==> NoDup(LhsFds(t, xs))
    decreases |xs|
  {
    if xs != [] {
      var here := RhsFds(t, xs[0], t.columns);
      var rest := LhsFds(t, xs[1..]);
      RhsFdsSpec(t, xs[0], t.columns);
      LhsFdsSpec(t, xs[1..]);
      MemberCons(xs);
      MemberAppend(here, rest);
      if NoDup(xs) {
        NoDupTail(xs);
        NoDupAppend(here, rest);
      }
    }
  }


  /** The outer loop: left-hand side sizes `r` up to `hi`, each over the
      combinations of the columns in order. */
  function FdsFromSize(t: Table, r: nat, hi: int): (fds: seq<Fd>)
    requires Wf(t)
    decreases hi - r
  {
    if r > hi then []
    else
      LhsFds(t, Combinations(t.columns, r)) + FdsFromSize(t, r + 1, hi)
  }

  lemma CombinationsNames(t: Table, r: nat)
    ensures forall k :: 0 <= k < |Combinations(t.columns, r)| ==> Names(t, Combinations(t.columns, r)[k])
  {
    var cs := Combinations(t.columns, r);
    forall k | 0 <= k < |cs| ensures Names(t, cs[k]) {
      CombinationsShape(t.columns, r, cs[k]);
    }
  }

  /** The left-hand sides of size `r` are exactly the candidates of that size. */
  lemma SizeLayer(t: Table, r: nat, hi: int)
    requires Wf(t) && 1 <= r <= hi
    ensures forall fd :: fd in LhsFds(t, Combinations(t.columns, r)) <==>
      Candidate(t, hi, fd) && r == |fd.lhs| && Holds(t, fd)
    ensures NoDup(LhsFds(t, Combinations(t.columns, r)))
  {
    var combos := Combinations(t.columns, r);
    CombinationsNames(t, r);
    LhsFdsSpec(t, combos);
    CombinationsNoDup(t.columns, r);
    forall fd: Fd ensures fd.lhs in combos <==> |fd.lhs| == r && IsSubseq(fd.lhs, t.columns) {
      CombinationsIff(t.columns, r, fd.lhs);
    }
    forall fd: Fd | IsSubseq(fd.lhs, t.columns) ensures Names(t, fd.lhs) {
      SubseqMembers(fd.lhs, t.columns);
    }
  }

  /** The left-hand sides of size `r` have `r` columns and are listed once. */
  lemma SizeLayerLengths(t: Table, r: nat, hi: int)
    requires Wf(t) && 1 <= r <= hi
    ensures forall fd :: fd in LhsFds(t, Combinations(t.columns, r)) ==> |fd.lhs| == r
    ensures NoDup(LhsFds(t, Combinations(t.columns, r)))
  {
    SizeLayer(t, r, hi);
  }

  /** The outer loop from size `r` on reports a dependency exactly when the
      layer of its own left-hand size, between `r` and `hi`, reports it. */
  lemma {:induction false} FdsFromSizeMembers(t: Table, r: nat, hi: int)
    requires Wf(t) && r >= 1
    ensures forall fd :: fd in FdsFromSize(t, r, hi) <==>
      r <= |fd.lhs| <= hi && fd in LhsFds(t, Combinations(t.columns, |fd.lhs|))
    decreases hi - r
  {
    if r <= hi {
      var here := LhsFds(t, Combinations(t.columns, r));
      var rest := FdsFromSize(t, r + 1, hi);
      SizeLayerLengths(t, r, hi);
      FdsFromSizeMembers(t, r + 1, hi);
      MemberAppend(here, rest);
    }
  }

  /** The whole search reports exactly the candidates that hold. */
  lemma FdsFromSizeReports(t: Table, hi: int, fd: Fd)
    requires Wf(t)
    ensures fd in FdsFromSize(t, 1, hi) <==> Candidate(t, hi, fd) && Holds(t, fd)
  {
    FdsFromSizeMembers(t, 1, hi);
    if 1 <= |fd.lhs| <= hi {
      SizeLayer(t, |fd.lhs|, hi);
    }
  }

  /** Dependencies listed by non-decreasing left-hand size, all of size at
      least `r`. */
  predicate SizedFrom(fds: seq<Fd>, r: nat) {
    && (forall i :: 0 <= i < |fds| ==> r <= |fds[i].lhs|)
    && (forall i, j :: 0 <= i < j < |fds| ==> |fds[i].lhs| <= |fds[j].lhs|)
  }

  /** The outer loop lists dependencies by non-decreasing left-hand size,
      all of size at least `r`. */
  lemma {:induction false} FdsFromSizeOrder(t: Table, r: nat, hi: int)
    requires Wf(t) && r >= 1
    ensures SizedFrom(FdsFromSize(t, r, hi), r)
    decreases hi - r
  {
    if r <= hi {
      var here := LhsFds(t, Combinations(t.columns, r));
      var rest := FdsFromSize(t, r + 1, hi);
      SizeLayerLengths(t, r, hi);
      FdsFromSizeOrder(t, r + 1, hi);
      SizeOrder(here, rest, r);
    }
  }

  /** The outer loop lists no dependency twice. */
  lemma {:induction false} FdsFromSizeNoDup(t: Table, r: nat, hi: int)
    requires Wf(t) && r >= 1
    ensures NoDup(FdsFromSize(t, r, hi))
    decreases hi - r
  {
    if r <= hi {
      var here := LhsFds(t, Combinations(t.columns, r));
      var rest := FdsFromSize(t, r + 1, hi);
      SizeLayerLengths(t, r, hi);
      FdsFromSizeNoDup(t, r + 1, hi);
      assert forall y :: y in here ==> y !in rest by {
        FdsFromSizeOrder(t, r + 1, hi);
      }
      NoDupAppend(here, rest);
    }
  }

  /** A layer of size-`r` dependencies followed by larger ones is ordered by size. */
  lemma SizeOrder(here: seq<Fd>, rest: seq<Fd>, r: nat)
    requires forall fd :: fd in here ==> |fd.lhs| == r
    requires SizedFrom(rest, r + 1)
    ensures SizedFrom(here + rest, r)
  {
    forall i | 0 <= i < |here + rest| ensures (i < |here| ==> |(here + rest)[i].lhs| == r) && (i >= |here| ==> r + 1 <= |(here + rest)[i].lhs|) {
      if i < |here| {
        assert (here + rest)[i] == here[i] && here[i] in here;
      } else {
        assert (here + rest)[i] == rest[i - |here|];
      }
    }
  }

  /** `find_all_fds(max_lhs_size)`: sound and complete for its search space.
      It reports a dependency exactly when it is a candidate (left-hand side
      of 1 to `maxLhsSize` columns in table order, one other column on the
      right) and it holds; the list is ordered by left-hand side size and
      has no repetition. */
  function FindAllFds(t: Table, maxLhsSize: int): (fds: seq<Fd>)
    requires Wf(t)
    ensures forall fd :: fd in fds <==> Candidate(t, maxLhsSize, fd) && Holds(t, fd)
    ensures forall i, j :: 0 <= i < j < |fds| ==> |fds[i].lhs| <= |fds[j].lhs|
    ensures NoDup(fds)
  {
    var hi := if maxLhsSize < |t.columns| then maxLhsSize else |t.columns|;
    FdsFromSizeOrder(t, 1, hi);
    FdsFromSizeNoDup(t, 1, hi);
    forall fd ensures fd in FdsFromSize(t, 1, hi) <==> Candidate(t, maxLhsSize, fd) && Holds(t, fd) {
      FdsFromSizeReports(t, hi, fd);
      if IsSubseq(fd.lhs, t.columns) {
        SubseqLength(fd.lhs, t.columns);
      }
    }
    FdsFromSize(t, 1, hi)
  }

  lemma {:induction false} SubseqLength(a: seq<string>, b: seq<string>)
    requires IsSubseq(a, b)
    ensures |a| <= |b|
    decreases |b|
  {
    if a != [] {
      if a[0] == b[0] {
        SubseqLength(a[1..], b[1..]);
      } else {
        SubseqLength(a, b[1..]);
      }
    }
  }

  /** With at most one column, or a size bound below one, nothing is found. */
  lemma FindAllFdsEmpty(t: Table, maxLhsSize: int)
    requires Wf(t) && (|t.columns| <= 1 || maxLhsSize < 1)
    ensures FindAllFds(t, maxLhsSize) == []
  {
    var fds := FindAllFds(t, maxLhsSize);
    forall fd ensures fd !in fds {
      if maxLhsSize >= 1 {
        NoCandidate(t, maxLhsSize, fd);
      }
    }
    HeadMember(fds);
  }

  /** Over at most one column no candidate exists: its one right-hand
      column would have to be outside a non-empty left-hand side. */
  lemma NoCandidate(t: Table, m: int, fd: Fd)
    requires Wf(t) && |t.columns| <= 1
    ensures !Candidate(t, m, fd)
  {
    if 1 <= |fd.lhs| && IsSubseq(fd.lhs, t.columns) {
      SubseqMembers(fd.lhs, t.columns);
    }
  }

  /** On a table without rows every candidate is reported, since no group
      can hold two values. */
  lemma FindAllFdsNoRows(t: Table, maxLhsSize: int, fd: Fd)
    requires Wf(t) && t.rows == [] && Candidate(t, maxLhsSize, fd)
    ensures fd in FindAllFds(t, maxLhsSize)
  {
    SubseqMembers(fd.lhs, t.columns);
  }
}
