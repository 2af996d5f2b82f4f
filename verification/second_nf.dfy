/** The Second Normal Form test (`SecondNFChecker`): a dependency is a
    violation when a proper part of the declared key determines a non-key
    column. */
module SecondNF {
  import opened Seqs
  import opened FdChecker

  /** Python's `set(s)`. */
  function SetOf(s: seq<string>): set<string> {
    set k | 0 <= k < |s| :: s[k]
  }

  lemma SetOfMember(s: seq<string>, c: string)
    ensures c in SetOf(s) <==> c in s
  {
    if c in s {
      var k :| 0 <= k < |s| && s[k] == c;
    }
  }

  /** `is_subset(subset, superset)`: `all(item in superset for item in subset)`. */
  function IsSubset(a: seq<string>, b: seq<string>): (r: bool)
    ensures r <==> forall k :: 0 <= k < |a| ==> a[k] in b
    decreases |a|
  {
    if a == [] then true
    else
      assert forall k :: 1 <= k < |a| ==> a[k] == a[1..][k - 1];
      a[0] in b && IsSubset(a[1..], b)
  }

  /** The condition `is_2nf` and `get_violations` test for one dependency:
      its right-hand side meets the non-prime columns, its left-hand side lies
      inside the key and is not the whole key. */
  predicate IsViolation(columns: seq<string>, key: seq<string>, fd: Fd)
  {
    var nonPrime := SetOf(columns) - SetOf(key);
    && !(SetOf(fd.rhs) !! nonPrime)
    && IsSubset(fd.lhs, key)
    && SetOf(fd.lhs) != SetOf(key)
  }

  /** The violation condition spelled out element by element: some right-hand
      column is a table column outside the key, every left-hand column is a
      key column, and some key column is missing from the left-hand side. */
  lemma ViolationIff(columns: seq<string>, key: seq<string>, fd: Fd)
    ensures IsViolation(columns, key, fd) <==>
      && (exists k :: 0 <= k < |fd.rhs| && fd.rhs[k] in columns && fd.rhs[k] !in key)
      && (forall k :: 0 <= k < |fd.lhs| ==> fd.lhs[k] in key)
      && (exists k :: 0 <= k < |key| && key[k] !in fd.lhs)
  {
    var nonPrime := SetOf(columns) - SetOf(key);
    forall c ensures c in SetOf(fd.rhs) <==> c in fd.rhs { SetOfMember(fd.rhs, c); }
    forall c ensures c in SetOf(columns) <==> c in columns { SetOfMember(columns, c); }
    forall c ensures c in SetOf(key) <==> c in key { SetOfMember(key, c); }
    forall c ensures c in SetOf(fd.lhs) <==> c in fd.lhs { SetOfMember(fd.lhs, c); }
    if exists k :: 0 <= k < |fd.rhs| && fd.rhs[k] in columns && fd.rhs[k] !in key {
      var k :| 0 <= k < |fd.rhs| && fd.rhs[k] in columns && fd.rhs[k] !in key;
      assert fd.rhs[k] in SetOf(fd.rhs) * nonPrime;
    }
    if !(SetOf(fd.rhs) !! nonPrime) {
      var c :| c in SetOf(fd.rhs) && c in nonPrime;
      var k :| 0 <= k < |fd.rhs| && fd.rhs[k] == c;
    }
    if IsSubset(fd.lhs, key) && SetOf(fd.lhs) != SetOf(key) {
      var c :| c in SetOf(key) && c !in SetOf(fd.lhs);
      var k :| 0 <= k < |key| && key[k] == c;
    }
    if exists k :: 0 <= k < |key| && key[k] !in fd.lhs {
      var k :| 0 <= k < |key| && key[k] !in fd.lhs;
      assert key[k] in SetOf(key) && key[k] !in SetOf(fd.lhs);
    }
  }

  /** `SecondNFChecker.is_2nf()`: scans the dependencies and fails at the
      first violation. */
  function IsSecondNF(columns: seq<string>, key: seq<string>, fds: seq<Fd>): (ok: bool)
    ensures ok <==> forall k :: 0 <= k < |fds| ==> !IsViolation(columns, key, fds[k])
    decreases |fds|
  {
    if fds == [] then true
    else if IsViolation(columns, key, fds[0]) then false
    else
      assert forall k :: 1 <= k < |fds| ==> fds[k] == fds[1..][k - 1];
      IsSecondNF(columns, key, fds[1..])
  }

  /** `SecondNFChecker.get_violations()`: the violating dependencies in input
      order, each with its left- and right-hand lists as given, and each as
      often as the input lists it. */
  function GetViolations(columns: seq<string>, key: seq<string>, fds: seq<Fd>): (vs: seq<Fd>)
    ensures forall fd :: fd in vs <==> fd in fds && IsViolation(columns, key, fd)
    ensures IsSubseq(vs, fds)
    ensures forall fd :: multiset(vs)[fd] == if IsViolation(columns, key, fd) then multiset(fds)[fd] else 0
    decreases |fds|
  {
    if fds == [] then []
    else
      var rest := GetViolations(columns, key, fds[1..]);
      assert forall fd :: fd in fds <==> fd == fds[0] || fd in fds[1..];
      assert fds == [fds[0]] + fds[1..];
      assert multiset(fds) == multiset([fds[0]]) + multiset(fds[1..]);
      assert multiset([fds[0]] + rest) == multiset([fds[0]]) + multiset(rest);
      if IsViolation(columns, key, fds[0]) then
        assert ([fds[0]] + rest)[1..] == rest;
        [fds[0]] + rest
      else
        SubseqCons(rest, fds[1..], fds[0]);
        assert [fds[0]] + fds[1..] == fds;
        rest
  }

  /** `is_2nf()` is true exactly when `get_violations()` is empty. */
  lemma IsSecondNFIffNoViolations(columns: seq<string>, key: seq<string>, fds: seq<Fd>)
    ensures IsSecondNF(columns, key, fds) <==> GetViolations(columns, key, fds) == []
  {
    var vs := GetViolations(columns, key, fds);
    if vs != [] {
      assert vs[0] in vs;
    }
    if !IsSecondNF(columns, key, fds) {
      var k :| 0 <= k < |fds| && IsViolation(columns, key, fds[k]);
      assert fds[k] in vs;
    }
  }

  /** A dependency on the whole key, or one whose right-hand side lies in the
      key, is never a violation. */
  lemma WholeKeyOrPrimeRhsNotFlagged(columns: seq<string>, key: seq<string>, fd: Fd)
    requires SetOf(fd.lhs) == SetOf(key) || forall k :: 0 <= k < |fd.rhs| ==> fd.rhs[k] in key
    ensures !IsViolation(columns, key, fd)
  {
    ViolationIff(columns, key, fd);
    if SetOf(fd.lhs) == SetOf(key) {
      forall k | 0 <= k < |key| ensures key[k] in fd.lhs {
        assert key[k] in SetOf(key);
        SetOfMember(fd.lhs, key[k]);
      }
    }
  }

  /** With a non-empty key, an empty left-hand side determining a non-key
      column is flagged: the empty set is a proper part of the key. */
  lemma EmptyLhsFlagged(columns: seq<string>, key: seq<string>, rhs: seq<string>)
    requires key != []
    requires exists k :: 0 <= k < |rhs| && rhs[k] in columns && rhs[k] !in key
    ensures IsViolation(columns, key, Fd([], rhs))
  {
    ViolationIff(columns, key, Fd([], rhs));
    assert key[0] !in [];
  }

  /** The textbook case: with key (A, B), the dependency A -> C on a non-key
      C is flagged and (A, B) -> C is not. */
  lemma PartialDependencyExample()
    ensures GetViolations(["A", "B", "C"], ["A", "B"], [Fd(["A"], ["C"]), Fd(["A", "B"], ["C"])])
         == [Fd(["A"], ["C"])]
  {
    var columns: seq<string> := ["A", "B", "C"];
    var key: seq<string> := ["A", "B"];
    var partial := Fd(["A"], ["C"]);
    var full := Fd(["A", "B"], ["C"]);
    var fds := [partial, full];
    assert IsViolation(columns, key, partial) by {
      ViolationIff(columns, key, partial);
      assert partial.rhs[0] in columns && partial.rhs[0] !in key;
      assert key[1] !in partial.lhs;
    }
    assert !IsViolation(columns, key, full) by {
      ViolationIff(columns, key, full);
      assert forall k :: 0 <= k < |key| ==> key[k] in full.lhs;
    }
    assert fds[1..] == [full] && [full][1..] == [];
    assert GetViolations(columns, key, [full]) == [];
    assert GetViolations(columns, key, fds) == [partial] + GetViolations(columns, key, [full]);
  }
}
