/** Grouping names by a key, as `clean_data` builds `root_map`: a
    `defaultdict(list)` filled in column order, whose keys a Python dict keeps
    in order of first insertion. The key function is a parameter, so what
    follows holds for any way of computing it. */
module Grouping {
  import opened Seqs

  /** The key of every name, position by position. */
  function KeysOf(cols: seq<string>, key: string -> string): (ks: seq<string>)
    ensures |ks| == |cols|
    ensures forall k :: 0 <= k < |cols| ==> ks[k] == key(cols[k])
  {
    seq(|cols|, k requires 0 <= k < |cols| => key(cols[k]))
  }

  /** The dict's keys: each key once, in order of first appearance. */
  function GroupKeys(cols: seq<string>, key: string -> string): (rs: seq<string>)
    ensures NoDup(rs)
    ensures forall r :: r in rs <==> exists k :: 0 <= k < |cols| && key(cols[k]) == r
  {
    var all := KeysOf(cols, key);
    assert forall r :: r in all <==> exists k :: 0 <= k < |cols| && key(cols[k]) == r;
    Distinct(all)
  }

  /** The keys are listed in the order in which they first occur. */
  lemma GroupKeysOrder(cols: seq<string>, key: string -> string)
    ensures InFirstOrder(GroupKeys(cols, key), KeysOf(cols, key))
  {
    DistinctOrder(KeysOf(cols, key));
  }

  /** The first group is that of the first name, and starts with it. */
  lemma GroupKeysFirst(cols: seq<string>, key: string -> string)
    requires cols != []
    ensures GroupKeys(cols, key) != [] && GroupKeys(cols, key)[0] == key(cols[0])
    ensures Members(cols, key, key(cols[0])) != [] && Members(cols, key, key(cols[0]))[0] == cols[0]
  {
    var s := KeysOf(cols, key);
    var d := GroupKeys(cols, key);
    DistinctOrder(s);
    assert d == Distinct(s);
    assert s[0] in d;
    var i :| 0 <= i < |d| && d[i] == s[0];
    assert forall k :: 0 <= k < |d| ==> FirstIndex(s, d[0]) <= FirstIndex(s, d[k]);
    assert FirstIndex(s, d[i]) == 0;
    assert s[FirstIndex(s, d[0])] == d[0];
  }

  /** The list stored under key `r`: the names with that key, in column order. */
  function Members(cols: seq<string>, key: string -> string, r: string): (ms: seq<string>)
    ensures forall c :: c in ms <==> c in cols && key(c) == r
    ensures IsSubseq(ms, cols)
    decreases |cols|
  {
    if cols == [] then []
    else
      var rest := Members(cols[1..], key, r);
      MemberCons(cols);
      if key(cols[0]) == r then
        assert ([cols[0]] + rest)[1..] == rest;
        [cols[0]] + rest
      else
        SubseqCons(rest, cols[1..], cols[0]);
        assert [cols[0]] + cols[1..] == cols;
        rest
  }

  /** Every name sits in the group of its own key, and in no other. */
  lemma MembersPartition(cols: seq<string>, key: string -> string, c: string)
    requires c in cols
    ensures key(c) in GroupKeys(cols, key) && c in Members(cols, key, key(c))
    ensures forall r :: r != key(c) ==> c !in Members(cols, key, r)
  {
    var k :| 0 <= k < |cols| && cols[k] == c;
    assert key(cols[k]) == key(c);
  }

  /** All groups, in the order of their keys: a `defaultdict(list)` filled
      column by column and read back with `values()`. */
  function Groups(cols: seq<string>, key: string -> string): (gs: seq<seq<string>>)
    ensures |gs| == |GroupKeys(cols, key)|
    ensures forall j :: 0 <= j < |gs| ==> gs[j] == Members(cols, key, GroupKeys(cols, key)[j])
  {
    var rs := GroupKeys(cols, key);
    seq(|rs|, j requires 0 <= j < |rs| => Members(cols, key, rs[j]))
  }

  /** Every group is a non-empty, duplicate-free list of names with its key. */
  lemma GroupShape(cols: seq<string>, key: string -> string, j: nat)
    requires NoDup(cols) && j < |GroupKeys(cols, key)|
    ensures var g := Groups(cols, key)[j];
      && g != [] && NoDup(g)
      && forall k :: 0 <= k < |g| ==> g[k] in cols && key(g[k]) == GroupKeys(cols, key)[j]
  {
    var r := GroupKeys(cols, key)[j];
    assert r in GroupKeys(cols, key);
    MembersShape(cols, key, r);
  }

  /** The names with a key that occurs form a non-empty, duplicate-free list. */
  lemma MembersShape(cols: seq<string>, key: string -> string, r: string)
    requires NoDup(cols) && r in GroupKeys(cols, key)
    ensures var g := Members(cols, key, r);
      && g != [] && NoDup(g)
      && forall k :: 0 <= k < |g| ==> g[k] in cols && key(g[k]) == r
  {
    var g := Members(cols, key, r);
    var k :| 0 <= k < |cols| && key(cols[k]) == r;
    assert cols[k] in g;
    MembersNoDup(cols, key, r);
    forall i | 0 <= i < |g| ensures g[i] in cols && key(g[i]) == r {
      assert g[i] in g;
    }
  }

  /** A group of distinct names has distinct members. */
  lemma MembersNoDup(cols: seq<string>, key: string -> string, r: string)
    requires NoDup(cols)
    ensures NoDup(Members(cols, key, r))
  {
    SubseqNoDup(Members(cols, key, r), cols);
  }

  /** A name lies in exactly the group of its key. */
  lemma GroupOf(cols: seq<string>, key: string -> string, c: string, j: nat)
    requires c in cols && j < |GroupKeys(cols, key)|
    ensures c in Groups(cols, key)[j] <==> GroupKeys(cols, key)[j] == key(c)
  {
    MembersPartition(cols, key, c);
  }

  /** The names in no group (the source's `remaining_cols`). */
  function Ungrouped(cols: seq<string>, gs: seq<seq<string>>): (rem: seq<string>)
    ensures forall c :: c in rem <==> c in cols && forall j :: 0 <= j < |gs| ==> c !in gs[j]
    ensures IsSubseq(rem, cols)
  {
    Filter(cols, c => forall j :: 0 <= j < |gs| ==> c !in gs[j])
  }

  /** The groups cover every name. */
  lemma UngroupedEmpty(cols: seq<string>, key: string -> string)
    ensures Ungrouped(cols, Groups(cols, key)) == []
  {
    var gs := Groups(cols, key);
    var p := c => forall j :: 0 <= j < |gs| ==> c !in gs[j];
    forall k | 0 <= k < |cols| ensures !p(cols[k]) {
      var c := cols[k];
      MembersPartition(cols, key, c);
      var j := FirstIndex(GroupKeys(cols, key), key(c));
      assert c in gs[j];
    }
    FilterNone(cols, p);
  }

  /** Group size, one name at a time. */
  lemma MembersStep(cols: seq<string>, key: string -> string, r: string)
    requires cols != []
    ensures |Members(cols, key, r)| == (if key(cols[0]) == r then 1 else 0) + |Members(cols[1..], key, r)|
  {
  }

  /** Two positions with the same key give that key a group of more than one. */
  lemma {:induction false} SharedKeyGroup(cols: seq<string>, key: string -> string, i: nat, j: nat)
    requires i < j < |cols| && key(cols[i]) == key(cols[j])
    ensures |Members(cols, key, key(cols[i]))| > 1
    decreases |cols|
  {
    var r := key(cols[i]);
    var tail := cols[1..];
    MembersStep(cols, key, r);
    assert tail[j - 1] == cols[j];
    if i == 0 {
      assert cols[j] in Members(tail, key, r);
    } else {
      assert tail[i - 1] == cols[i];
      SharedKeyGroup(tail, key, i - 1, j - 1);
    }
  }

  /** The keys among `rs` whose group has more than one member, in the order of `rs`. */
  function SharedKeys(cols: seq<string>, key: string -> string, rs: seq<string>): (ms: seq<string>)
    ensures forall r :: r in ms <==> r in rs && |Members(cols, key, r)| > 1
    ensures IsSubseq(ms, rs)
    decreases |rs|
  {
    if rs == [] then []
    else
      var rest := SharedKeys(cols, key, rs[1..]);
      MemberCons(rs);
      if |Members(cols, key, rs[0])| > 1 then
        assert ([rs[0]] + rest)[1..] == rest;
        [rs[0]] + rest
      else
        SubseqCons(rest, rs[1..], rs[0]);
        assert [rs[0]] + rs[1..] == rs;
        rest
  }

  /** An element placed before a list it precedes in `s` keeps first-occurrence order. */
  lemma ConsFirstOrder(x: string, rest: seq<string>, s: seq<string>)
    requires x in s && InFirstOrder(rest, s)
    requires forall k :: 0 <= k < |rest| ==> FirstIndex(s, x) < FirstIndex(s, rest[k])
    ensures InFirstOrder([x] + rest, s)
  {
    var xs := [x] + rest;
    forall i, j | 0 <= i < j < |xs| ensures FirstIndex(s, xs[i]) < FirstIndex(s, xs[j]) {
      assert xs[j] == rest[j - 1];
      if i > 0 {
        assert xs[i] == rest[i - 1];
      }
    }
  }

  /** `SharedKeys` keeps the first-appearance order of the keys it picks from. */
  lemma {:induction false} SharedKeysOrder(cols: seq<string>, key: string -> string, rs: seq<string>, s: seq<string>)
    requires InFirstOrder(rs, s)
    ensures InFirstOrder(SharedKeys(cols, key, rs), s)
    decreases |rs|
  {
    if rs != [] {
      var tail := rs[1..];
      assert InFirstOrder(tail, s) by {
        TailIndex(rs);
      }
      SharedKeysOrder(cols, key, tail, s);
      var rest := SharedKeys(cols, key, tail);
      if |Members(cols, key, rs[0])| > 1 {
        forall k | 0 <= k < |rest| ensures FirstIndex(s, rs[0]) < FirstIndex(s, rest[k]) {
          assert rest[k] in tail;
          var m :| 0 <= m < |tail| && tail[m] == rest[k];
          assert rs[m + 1] == rest[k];
        }
        assert rs[0] in rs;
        ConsFirstOrder(rs[0], rest, s);
      }
    }
  }

  /** The shared keys of all groups: none exactly when every group has a
      single member; otherwise exactly the keys of several names, listed in
      order of first appearance. */
  lemma SharedGroupKeys(cols: seq<string>, key: string -> string)
    ensures var shared := SharedKeys(cols, key, GroupKeys(cols, key));
      && (shared == [] <==> forall k :: 0 <= k < |cols| ==> |Members(cols, key, key(cols[k]))| <= 1)
      && InFirstOrder(shared, KeysOf(cols, key))
      && forall r :: r in shared <==> |Members(cols, key, r)| > 1 && exists k :: 0 <= k < |cols| && key(cols[k]) == r
  {
    var rs := GroupKeys(cols, key);
    var shared := SharedKeys(cols, key, rs);
    GroupKeysOrder(cols, key);
    SharedKeysOrder(cols, key, rs, KeysOf(cols, key));
    if shared != [] {
      assert shared[0] in shared;
      var k :| 0 <= k < |cols| && key(cols[k]) == shared[0];
      assert |Members(cols, key, key(cols[k]))| > 1;
    }
    forall k | 0 <= k < |cols| && |Members(cols, key, key(cols[k]))| > 1 ensures key(cols[k]) in shared {
      assert key(cols[k]) in rs;
    }
  }
}
