/** Sequence vocabulary shared by the model: duplicate-freedom, first
    occurrence, order-preserving sub-sequences, de-duplication that keeps
    first occurrences (pandas `drop_duplicates`, `unique`, and Python's
    insertion-ordered dicts) and flattening. */
module Seqs {

  /** No element occurs twice. */
  predicate NoDup<T(==)>(s: seq<T>) {
    forall i, j :: 0 <= i < j < |s| ==> s[i] != s[j]
  }

  /** Position of the first occurrence of `x` in `s`. */
  function FirstIndex<T(==)>(s: seq<T>, x: T): (k: nat)
    requires x in s
    ensures k < |s| && s[k] == x
    ensures forall j :: 0 <= j < k ==> s[j] != x
  {
    if s[0] == x then 0 else 1 + FirstIndex(s[1..], x)
  }

  /** The first occurrence of an element does not move when the sequence grows. */
  lemma FirstIndexPrefix<T>(s: seq<T>, n: nat, x: T)
    requires n <= |s| && x in s[..n]
    ensures FirstIndex(s[..n], x) == FirstIndex(s, x)
  {
    var k := FirstIndex(s[..n], x);
    assert s[k] == x;
    var m := FirstIndex(s, x);
    assert m <= k;
    assert s[..n][m] == x;
  }

  /** `a` is `b` with some elements removed, the rest kept in order. */
  predicate IsSubseq<T(==)>(a: seq<T>, b: seq<T>)
    decreases |b|
  {
    if a == [] then true
    else if b == [] then false
    else if a[0] == b[0] then IsSubseq(a[1..], b[1..])
    else IsSubseq(a, b[1..])
  }

  lemma {:induction false} SubseqDropHead<T>(a: seq<T>, b: seq<T>)
    requires a != [] && IsSubseq(a, b)
    ensures IsSubseq(a[1..], b)
    decreases |b|, 0
  {
    if a[0] == b[0] {
      SubseqCons(a[1..], b[1..], b[0]);
      assert [b[0]] + b[1..] == b;
    } else {
      SubseqDropHead(a, b[1..]);
      SubseqCons(a[1..], b[1..], b[0]);
      assert [b[0]] + b[1..] == b;
    }
  }

  /** A sub-sequence stays one when the super-sequence gains a head. */
  lemma {:induction false} SubseqCons<T>(a: seq<T>, b: seq<T>, x: T)
    requires IsSubseq(a, b)
    ensures IsSubseq(a, [x] + b)
    decreases |b|, 1
  {
    var xb := [x] + b;
    assert xb[1..] == b;
    if a != [] && a[0] == x {
      SubseqDropHead(a, b);
    }
  }

  /** Only the empty sequence is a sub-sequence of the empty sequence. */
  lemma SubseqNonEmpty<T>(a: seq<T>, b: seq<T>)
    requires a != [] && IsSubseq(a, b)
    ensures b != []
  {
  }

  /** A non-empty `a` is a sub-sequence of `b` when its head is matched
      by the head of `b`, or when it lies in the tail of `b`. */
  lemma SubseqStep<T>(a: seq<T>, b: seq<T>)
    requires a != [] && b != []
    ensures IsSubseq(a, b) <==> (a[0] == b[0] && IsSubseq(a[1..], b[1..])) || IsSubseq(a, b[1..])
  {
    if a[0] == b[0] && IsSubseq(a, b[1..]) {
      SubseqDropHead(a, b[1..]);
    }
  }

  /** Every sequence is a sub-sequence of itself. */
  lemma {:induction false} SubseqRefl<T>(a: seq<T>)
    ensures IsSubseq(a, a)
    decreases |a|
  {
    if a != [] {
      SubseqRefl(a[1..]);
    }
  }

  /** Removing duplicates and keeping each element where it first occurred:
      the semantics of pandas `drop_duplicates()` and `unique()`. */
  function Distinct<T(==)>(s: seq<T>): (r: seq<T>)
    ensures NoDup(r)
    ensures forall i :: 0 <= i < |r| ==> r[i] in s
    ensures forall i :: 0 <= i < |s| ==> s[i] in r
    ensures |r| <= |s|
    decreases |s|
  {
    if s == [] then []
    else
      var init := s[..|s| - 1];
      var x := s[|s| - 1];
      var p := Distinct(init);
      assert forall i :: 0 <= i < |s| - 1 ==> s[i] == init[i];
      if x in init then p else p + [x]
  }

  /** The elements of `r` come from `s` and appear in `r` in the order of
      their first occurrences in `s`. */
  predicate InFirstOrder<T(==)>(r: seq<T>, s: seq<T>) {
    && (forall i :: 0 <= i < |r| ==> r[i] in s)
    && (forall i, j :: 0 <= i < j < |r| ==> FirstIndex(s, r[i]) < FirstIndex(s, r[j]))
  }

  /** First-occurrence order is kept when the sequence grows at the end. */
  lemma InFirstOrderGrow<T>(r: seq<T>, s: seq<T>)
    requires s != [] && InFirstOrder(r, s[..|s| - 1])
    ensures InFirstOrder(r, s)
  {
    forall y | y in s[..|s| - 1] ensures FirstIndex(s[..|s| - 1], y) == FirstIndex(s, y) {
      FirstIndexPrefix(s, |s| - 1, y);
    }
  }

  /** An element new at the end of `s` comes after all earlier ones. */
  lemma InFirstOrderSnoc<T>(r: seq<T>, s: seq<T>)
    requires s != [] && s[|s| - 1] !in s[..|s| - 1]
    requires InFirstOrder(r, s) && forall i :: 0 <= i < |r| ==> r[i] in s[..|s| - 1]
    ensures InFirstOrder(r + [s[|s| - 1]], s)
  {
    var x := s[|s| - 1];
    var init := s[..|s| - 1];
    assert FirstIndex(s, x) == |s| - 1 by {
      assert forall k :: 0 <= k < |s| - 1 ==> s[k] == init[k];
    }
    forall i | 0 <= i < |r| ensures FirstIndex(s, r[i]) < |s| - 1 {
      var k := FirstIndex(init, r[i]);
      assert s[k] == r[i];
    }
  }

  /** `Distinct` keeps the order of first occurrences. */
  lemma {:induction false} DistinctOrder<T>(s: seq<T>)
    ensures InFirstOrder(Distinct(s), s)
    decreases |s|
  {
    if s != [] {
      var init := s[..|s| - 1];
      var p := Distinct(init);
      DistinctOrder(init);
      InFirstOrderGrow(p, s);
      if s[|s| - 1] !in init {
        InFirstOrderSnoc(p, s);
      }
    }
  }

  /** Two sequences in the order of first occurrence in `s`, each holding
      the other's head, start alike. */
  lemma InFirstOrderHead<T>(a: seq<T>, b: seq<T>, s: seq<T>)
    requires a != [] && b != [] && a[0] in b && b[0] in a
    requires InFirstOrder(a, s) && InFirstOrder(b, s)
    ensures a[0] == b[0]
  {
    var i :| 0 <= i < |a| && a[i] == b[0];
    var j :| 0 <= j < |b| && b[j] == a[0];
    assert FirstIndex(s, b[0]) <= FirstIndex(s, b[j]);
    assert FirstIndex(s, a[0]) <= FirstIndex(s, a[i]);
  }

  /** Duplicate-free sequences with the same elements and the same head have
      tails with the same elements. */
  lemma SameTailMembers<T>(a: seq<T>, b: seq<T>)
    requires a != [] && b != [] && a[0] == b[0]
    requires NoDup(a) && NoDup(b) && forall x :: x in a <==> x in b
    ensures forall x :: x in a[1..] <==> x in b[1..]
  {
    forall x ensures x in a[1..] ==> x in b[1..] {
      if x in a[1..] {
        var k :| 1 <= k < |a| && a[k] == x;
        assert a[k] in a;
        var m :| 0 <= m < |b| && b[m] == x;
        assert m != 0;
        assert b[1..][m - 1] == x;
      }
    }
    forall x ensures x in b[1..] ==> x in a[1..] {
      if x in b[1..] {
        var k :| 1 <= k < |b| && b[k] == x;
        assert b[k] in b;
        var m :| 0 <= m < |a| && a[m] == x;
        assert m != 0;
        assert a[1..][m - 1] == x;
      }
    }
  }

  /** The tail of a sequence in first-occurrence order is in that order too. */
  lemma InFirstOrderTail<T>(a: seq<T>, s: seq<T>)
    requires a != [] && InFirstOrder(a, s)
    ensures InFirstOrder(a[1..], s)
  {
    assert forall i :: 0 <= i < |a| - 1 ==> a[1..][i] == a[i + 1];
  }

  /** Two duplicate-free sequences with the same elements, both in the order
      of first occurrence in `s`, are the same sequence. */
  lemma {:induction false} InFirstOrderUnique<T>(a: seq<T>, b: seq<T>, s: seq<T>)
    requires NoDup(a) && NoDup(b) && forall x :: x in a <==> x in b
    requires InFirstOrder(a, s) && InFirstOrder(b, s)
    ensures a == b
    decreases |a|
  {
    if a == [] {
      HeadMember(b);
    } else {
      assert a[0] in a;
      assert b != [];
      assert b[0] in b;
      InFirstOrderHead(a, b, s);
      SameTailMembers(a, b);
      InFirstOrderTail(a, s);
      InFirstOrderTail(b, s);
      NoDupTail(a);
      NoDupTail(b);
      InFirstOrderUnique(a[1..], b[1..], s);
      assert a == [a[0]] + a[1..] && b == [b[0]] + b[1..];
    }
  }

  /** A duplicate-free sequence is its own de-duplication. */
  lemma {:induction false} DistinctOfNoDup<T>(s: seq<T>)
    requires NoDup(s)
    ensures Distinct(s) == s
    decreases |s|
  {
    if s != [] {
      var init := s[..|s| - 1];
      assert NoDup(init);
      DistinctOfNoDup(init);
      assert s[|s| - 1] !in init;
      assert init + [s[|s| - 1]] == s;
    }
  }

  /** Concatenation of a sequence of sequences. */
  function Flatten<T>(ss: seq<seq<T>>): (r: seq<T>)
    decreases |ss|
  {
    if ss == [] then [] else ss[0] + Flatten(ss[1..])
  }

  lemma {:induction false} FlattenAppend<T>(a: seq<seq<T>>, b: seq<seq<T>>)
    ensures Flatten(a + b) == Flatten(a) + Flatten(b)
    decreases |a|
  {
    if a == [] {
      assert a + b == b;
    } else {
      assert (a + b)[1..] == a[1..] + b;
      FlattenAppend(a[1..], b);
    }
  }

  /** An element of the flattening comes from one of the pieces, and back. */
  lemma {:induction false} FlattenMember<T>(ss: seq<seq<T>>, x: T)
    ensures x in Flatten(ss) <==> exists k :: 0 <= k < |ss| && x in ss[k]
    decreases |ss|
  {
    if ss != [] {
      FlattenMember(ss[1..], x);
      if x in Flatten(ss[1..]) {
        var k :| 0 <= k < |ss[1..]| && x in ss[1..][k];
        assert x in ss[k + 1];
      }
      if exists k :: 0 <= k < |ss| && x in ss[k] {
        var k :| 0 <= k < |ss| && x in ss[k];
        if k > 0 {
          assert x in ss[1..][k - 1];
        }
      }
    }
  }

  /** Sum of a sequence of naturals. */
  function Sum(s: seq<nat>): nat
    decreases |s|
  {
    if s == [] then 0 else s[0] + Sum(s[1..])
  }

  /** Length of a flattening is the sum of the piece lengths. */
  lemma {:induction false} FlattenLength<T>(ss: seq<seq<T>>)
    ensures |Flatten(ss)| == Sum(seq(|ss|, k requires 0 <= k < |ss| => |ss[k]|))
    decreases |ss|
  {
    if ss != [] {
      FlattenLength(ss[1..]);
      var lens := seq(|ss|, k requires 0 <= k < |ss| => |ss[k]|);
      assert lens[1..] == seq(|ss[1..]|, k requires 0 <= k < |ss[1..]| => |ss[1..][k]|);
    }
  }

  /** Head and tail of a concatenation with a non-empty front. */
  lemma ConsSplit<T>(a: seq<T>, b: seq<T>)
    requires a != []
    ensures (a + b)[0] == a[0] && (a + b)[1..] == a[1..] + b
  {
  }

  lemma AppendAssoc<T>(x: seq<T>, y: seq<T>, z: seq<T>)
    ensures x + (y + z) == (x + y) + z
  {
  }

  lemma AppendEmpty<T>(a: seq<T>)
    ensures [] + a == a && a + [] == a
  {
  }

  /** Dropping the last element of `s + [x]` gives back `s`. */
  lemma SnocSplit<T>(s: seq<T>, x: T)
    ensures (s + [x])[..|s|] == s && (s + [x])[|s|] == x
  {
  }

  /** Indexing the tail is indexing one further on. */
  lemma TailIndex<T>(s: seq<T>)
    requires s != []
    ensures forall i :: 0 <= i < |s| - 1 ==> s[1..][i] == s[i + 1]
  {
  }

  /** A suffix of a suffix is a suffix. */
  lemma SliceOfSlice<T>(s: seq<T>, i: nat, j: nat)
    requires i <= |s| && j <= |s| - i
    ensures s[i..][j..] == s[i + j..]
  {
  }

  /** Membership in a non-empty sequence: its head or its tail. */
  lemma MemberCons<T>(s: seq<T>)
    requires s != []
    ensures forall y :: y in s <==> y == s[0] || y in s[1..]
  {
  }

  /** Membership in a concatenation. */
  lemma MemberAppend<T>(a: seq<T>, b: seq<T>)
    ensures forall y :: y in a + b <==> y in a || y in b
  {
  }

  /** A non-empty sequence has its head as a member. */
  lemma HeadMember<T>(s: seq<T>)
    ensures s == [] || s[0] in s
  {
  }

  /** Membership of one element in a concatenation. */
  lemma InAppend<T>(a: seq<T>, b: seq<T>, x: T)
    ensures x in a + b <==> x in a || x in b
  {
  }

  /** Two duplicate-free sequences with no element in common concatenate
      to a duplicate-free sequence. */
  lemma NoDupAppend<T>(a: seq<T>, b: seq<T>)
    requires NoDup(a) && NoDup(b)
    requires forall y :: y in a ==> y !in b
    ensures NoDup(a + b)
  {
    forall i, j | 0 <= i < j < |a + b| ensures (a + b)[i] != (a + b)[j] {
      if i < |a| && j >= |a| {
        assert (a + b)[i] == a[i] && a[i] in a;
        assert (a + b)[j] == b[j - |a|] && b[j - |a|] in b;
      }
    }
  }

  /** The tail of a duplicate-free sequence is duplicate-free and lacks the head. */
  lemma NoDupTail<T>(s: seq<T>)
    requires s != [] && NoDup(s)
    ensures NoDup(s[1..]) && s[0] !in s[1..]
  {
  }

  /** The elements satisfying `p`, in order (a list comprehension with a condition). */
  function Filter<T(!new)>(s: seq<T>, p: T -> bool): (r: seq<T>)
    ensures forall x :: x in r <==> x in s && p(x)
    ensures IsSubseq(r, s)
    decreases |s|
  {
    if s == [] then []
    else
      var rest := Filter(s[1..], p);
      MemberCons(s);
      if p(s[0]) then
        assert ([s[0]] + rest)[1..] == rest;
        [s[0]] + rest
      else
        SubseqCons(rest, s[1..], s[0]);
        assert [s[0]] + s[1..] == s;
        rest
  }

  /** `f` applied to every element. */
  function Map<T, U>(s: seq<T>, f: T -> U): (r: seq<U>)
    ensures |r| == |s| && forall k :: 0 <= k < |s| ==> r[k] == f(s[k])
  {
    seq(|s|, k requires 0 <= k < |s| => f(s[k]))
  }

  /** The image of a member is in the image of the sequence. */
  lemma MapOfMember<T, U>(s: seq<T>, f: T -> U, v: T)
    requires v in s
    ensures f(v) in Map(s, f)
  {
    var j :| 0 <= j < |s| && s[j] == v;
    assert Map(s, f)[j] == f(v);
  }

  /** An image under `Map` comes from some element. */
  lemma MapMember<T, U(!new)>(s: seq<T>, f: T -> U, y: U)
    ensures y in Map(s, f) <==> exists k :: 0 <= k < |s| && f(s[k]) == y
  {
    var r := Map(s, f);
    if y in r {
      var k :| 0 <= k < |r| && r[k] == y;
      assert f(s[k]) == y;
    }
    if exists k :: 0 <= k < |s| && f(s[k]) == y {
      var k :| 0 <= k < |s| && f(s[k]) == y;
      assert r[k] == y;
    }
  }

  /** The elements of a subsequence occur in the sequence. */
  lemma {:induction false} SubseqMember<T>(a: seq<T>, b: seq<T>)
    requires IsSubseq(a, b)
    ensures forall x :: x in a ==> x in b
    decreases |b|
  {
    if a != [] && b != [] {
      if a[0] == b[0] {
        SubseqMember(a[1..], b[1..]);
        assert forall x :: x in a ==> x == a[0] || x in a[1..];
      } else {
        SubseqMember(a, b[1..]);
      }
    }
  }

  /** A subsequence of a duplicate-free sequence is duplicate-free. */
  lemma {:induction false} SubseqNoDup<T>(a: seq<T>, b: seq<T>)
    requires IsSubseq(a, b) && NoDup(b)
    ensures NoDup(a)
    decreases |b|
  {
    if a != [] && b != [] {
      NoDupTail(b);
      if a[0] == b[0] {
        SubseqNoDup(a[1..], b[1..]);
        SubseqMember(a[1..], b[1..]);
        assert a[0] !in b[1..];
        assert a == [a[0]] + a[1..];
        NoDupAppend([a[0]], a[1..]);
      } else {
        SubseqNoDup(a, b[1..]);
      }
    }
  }

  /** A filter that no element passes is empty. */
  lemma {:induction false} FilterNone<T(!new)>(s: seq<T>, p: T -> bool)
    requires forall k :: 0 <= k < |s| ==> !p(s[k])
    ensures Filter(s, p) == []
    decreases |s|
  {
    if s != [] {
      FilterNone(s[1..], p);
    }
  }
}
