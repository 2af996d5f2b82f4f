/** The first step of the prefix decomposer (`_normalize_and_combine_columns`
    of `Semantic3NFPrefixDecomposer`): columns whose lower-cased names differ
    only in trailing digits and underscores are stacked into one column, and
    the combined columns are padded with missing cells to a common length.
    The repository carries two variants of the step; `Strategy` picks one. */
module ColumnCombining {
  import opened Wrappers
  import opened Seqs
  import opened Text
  import opened Tables
  import opened Grouping

  // ----- Normalised names -----

  /** Characters of the class `[\d_]`. */
  predicate IsNumbering(c: char) {
    IsDigit(c) || c == '_'
  }

  /** Length of the maximal run of `[\d_]` at the end of `s`. */
  function TrailingNumbering(s: string): (n: nat)
    ensures n <= |s| && forall k :: |s| - n <= k < |s| ==> IsNumbering(s[k])
    ensures n == |s| || !IsNumbering(s[|s| - n - 1])
    decreases |s|
  {
    if s == [] || !IsNumbering(s[|s| - 1]) then 0 else 1 + TrailingNumbering(s[..|s| - 1])
  }

  /** Characters of `[\d_]` from position `k` on are all counted. */
  lemma {:induction false} TrailingNumberingFrom(s: string, k: nat)
    requires k <= |s| && forall q :: k <= q < |s| ==> IsNumbering(s[q])
    ensures TrailingNumbering(s) >= |s| - k
    decreases |s|
  {
    if k < |s| {
      var init := s[..|s| - 1];
      TrailingNumberingFrom(init, k);
    }
  }

  /** The run stops at a character outside `[\d_]`. */
  lemma {:induction false} TrailingNumberingStop(s: string, k: nat)
    requires 0 < k <= |s| && !IsNumbering(s[k - 1])
    ensures TrailingNumbering(s) <= |s| - k
    decreases |s|
  {
    if k < |s| {
      var init := s[..|s| - 1];
      TrailingNumberingStop(init, k);
    }
  }

  /** `s` without its trailing run of `[\d_]`. */
  function DropNumbering(s: string): (r: string)
    ensures |r| <= |s| && r == s[..|r|]
    ensures r == [] || !IsNumbering(r[|r| - 1])
  {
    s[..|s| - TrailingNumbering(s)]
  }

  /** `re.sub(r'[\d_]+$', '', col.lower())`. Without the multi-line flag `$`
      matches at the end of the text and also just before a final line break,
      so a run standing there is removed and the break kept. */
  function Normalize(c: string): (n: string)
    ensures forall k :: 0 <= k < |n| ==> !IsUpper(n[k])
    ensures n == [] || !IsNumbering(n[|n| - 1])
  {
    var s := Lower(c);
    if s != [] && s[|s| - 1] == '\n' then
      var d := DropNumbering(s[..|s| - 1]);
      assert forall k :: 0 <= k < |d| ==> d[k] == s[k];
      d + "\n"
    else
      var d := DropNumbering(s);
      assert forall k :: 0 <= k < |d| ==> d[k] == s[k];
      d
  }

  /** Numbered copies of a name normalise to the lower-cased name:
      "Price_1", "price2" and "PRICE__3" all become "price". */
  lemma NormalizeNumbered(base: string, suffix: string)
    requires base != [] && !IsNumbering(base[|base| - 1]) && base[|base| - 1] != '\n'
    requires forall k :: 0 <= k < |suffix| ==> IsNumbering(suffix[k])
    ensures Normalize(base + suffix) == Normalize(base) == Lower(base)
  {
    var lb := Lower(base);
    LowerNumbered(base, suffix);
    LowerNumbered(base, []);
    assert base + [] == base && lb + [] == lb;
    assert lb[|lb| - 1] == LowerChar(base[|base| - 1]);
    DropNumberingOf(lb, suffix);
    DropNumberingOf(lb, []);
    LastOfAppend(lb, suffix);
    NormalizeNoBreak(base + suffix);
    NormalizeNoBreak(base);
  }

  /** The last character of `a + b` for a non-empty `a`: not a line break
      when neither `a`'s last character nor any of `b` is one. */
  lemma LastOfAppend(a: string, b: string)
    requires a != [] && a[|a| - 1] != '\n' && forall k :: 0 <= k < |b| ==> IsNumbering(b[k])
    ensures (a + b)[|a + b| - 1] != '\n'
  {
    if b != [] {
      assert (a + b)[|a + b| - 1] == b[|b| - 1];
    }
  }

  /** Without a final line break normalising drops the trailing run of the
      lower-cased name. */
  lemma NormalizeNoBreak(c: string)
    requires Lower(c) == [] || Lower(c)[|Lower(c)| - 1] != '\n'
    ensures Normalize(c) == DropNumbering(Lower(c))
  {
  }

  /** Lower-casing leaves digits and underscores alone. */
  lemma LowerNumbered(base: string, suffix: string)
    requires forall k :: 0 <= k < |suffix| ==> IsNumbering(suffix[k])
    ensures Lower(base + suffix) == Lower(base) + suffix
  {
    var c := base + suffix;
    assert forall k :: |base| <= k < |c| ==> c[k] == suffix[k - |base|];
  }

  /** A run of `[\d_]` after a character outside the class is exactly what
      is dropped. */
  lemma DropNumberingOf(lb: string, suffix: string)
    requires lb != [] && !IsNumbering(lb[|lb| - 1])
    requires forall k :: 0 <= k < |suffix| ==> IsNumbering(suffix[k])
    ensures DropNumbering(lb + suffix) == lb
  {
    var s := lb + suffix;
    assert s[|lb| - 1] == lb[|lb| - 1];
    TrailingNumberingFrom(s, |lb|);
    TrailingNumberingStop(s, |lb|);
    assert s[..|lb|] == lb;
  }

  /** A character sequence with no capital letter is its own lower case. */
  lemma LowerFixed(s: string)
    requires forall k :: 0 <= k < |s| ==> !IsUpper(s[k])
    ensures Lower(s) == s
  {
  }

  /** Normalising twice changes nothing, as long as the name has no line
      break. */
  lemma NormalizeIdempotent(c: string)
    requires '\n' !in c
    ensures Normalize(Normalize(c)) == Normalize(c)
  {
    var s := Lower(c);
    assert forall k :: 0 <= k < |s| ==> s[k] != '\n' by {
      forall k | 0 <= k < |s| ensures s[k] != '\n' {
        assert s[k] == LowerChar(c[k]) && c[k] != '\n';
      }
    }
    var n := Normalize(c);
    assert n == DropNumbering(s);
    LowerFixed(n);
    if n != [] {
      assert n[|n| - 1] == s[|n| - 1];
      assert TrailingNumbering(n) == 0;
      assert n[..|n|] == n;
    }
  }

  // ----- Which normalised names the loop visits -----

  /** The corrected loop: a column is skipped exactly when its key was
      combined already, so every key is combined once, at its first column. */
  function VisitKeys(cols: seq<string>, key: string -> string, i: nat, seen: set<string>): (ks: seq<string>)
    requires i <= |cols|
    ensures NoDup(ks)
    ensures forall n :: n in ks <==> n !in seen && n in KeysOf(cols, key)[i..]
    decreases |cols| - i
  {
    if i == |cols| then []
    else
      var n := key(cols[i]);
      var ks := KeysOf(cols, key);
      assert ks[i..] == [n] + ks[i + 1..];
      if n in seen then VisitKeys(cols, key, i + 1, seen)
      else
        var rest := VisitKeys(cols, key, i + 1, seen + {n});
        NoDupAppend([n], rest);
        [n] + rest
  }

  /** The loop as written: `processed` receives the key and also the original
      names of the columns combined under it (for a lone column in the
      `CombineCollisions` variant, only its original name), and a column is
      skipped when its key is in `processed`. */
  function VisitAsWritten(cols: seq<string>, key: string -> string, i: nat, processed: set<string>, st: Strategy): (ks: seq<string>)
    requires i <= |cols|
    ensures forall n :: n in ks ==> n in KeysOf(cols, key)[i..]
    decreases |cols| - i
  {
    if i == |cols| then []
    else
      var n := key(cols[i]);
      var ks := KeysOf(cols, key);
      assert ks[i..] == [n] + ks[i + 1..];
      if n in processed then VisitAsWritten(cols, key, i + 1, processed, st)
      else
        [n] + VisitAsWritten(cols, key, i + 1, processed + Marked(cols, key, n, st), st)
  }

  /** `processed` and the set of visited keys agree on every key still ahead. */
  predicate AgreeAhead(cols: seq<string>, key: string -> string, i: nat, processed: set<string>, seen: set<string>)
    requires i <= |cols|
  {
    forall k :: i <= k < |cols| ==> (key(cols[k]) in processed <==> key(cols[k]) in seen)
  }

  /** When the key function is idempotent on the columns' keys, marking the
      original names never hides a key, and the written loop visits exactly
      the keys of the corrected one. */
  lemma {:induction false} VisitAsWrittenAgrees(cols: seq<string>, key: string -> string, i: nat, processed: set<string>, seen: set<string>, st: Strategy)
    requires i <= |cols|
    requires forall k :: 0 <= k < |cols| ==> key(key(cols[k])) == key(cols[k])
    requires AgreeAhead(cols, key, i, processed, seen)
    ensures VisitAsWritten(cols, key, i, processed, st) == VisitKeys(cols, key, i, seen)
    decreases |cols| - i
  {
    if i < |cols| {
      var n := key(cols[i]);
      if n !in processed {
        AgreeAfterMarking(cols, key, i, processed, seen, st);
        VisitAsWrittenAgrees(cols, key, i + 1, processed + Marked(cols, key, n, st), seen + {n}, st);
      } else {
        VisitAsWrittenAgrees(cols, key, i + 1, processed, seen, st);
      }
    }
  }

  /** What the written loop adds to `processed` when it combines key `n`. */
  function Marked(cols: seq<string>, key: string -> string, n: string, st: Strategy): set<string> {
    var similar := set c | c in cols && key(c) == n;
    if st.CombineCollisions? && |Members(cols, key, n)| == 1 then similar else similar + {n}
  }

  /** Combining the key of column `i` keeps `processed` and the visited keys
      in agreement on the columns after it. */
  lemma AgreeAfterMarking(cols: seq<string>, key: string -> string, i: nat, processed: set<string>, seen: set<string>, st: Strategy)
    requires i < |cols|
    requires forall k :: 0 <= k < |cols| ==> key(key(cols[k])) == key(cols[k])
    requires AgreeAhead(cols, key, i, processed, seen)
    ensures AgreeAhead(cols, key, i + 1, processed + Marked(cols, key, key(cols[i]), st), seen + {key(cols[i])})
  {
    var n := key(cols[i]);
    var p2 := processed + Marked(cols, key, n, st);
    var s2 := seen + {n};
    forall k | i + 1 <= k < |cols| ensures key(cols[k]) in p2 <==> key(cols[k]) in s2 {
      var x := key(cols[k]);
      if x == n {
        SharedKeyGroup(cols, key, i, k);
      }
      if x in cols && key(x) == n {
        assert key(x) == x;
      }
    }
  }

  /** No column name contains a line break. */
  predicate NoLineBreaks(cols: seq<string>) {
    forall k :: 0 <= k < |cols| ==> '\n' !in cols[k]
  }

  /** Without line breaks in the names, both loops combine the same keys in
      the same order. */
  lemma NormalizedVisitAgrees(cols: seq<string>, st: Strategy)
    requires NoLineBreaks(cols)
    ensures VisitAsWritten(cols, Normalize, 0, {}, st) == VisitKeys(cols, Normalize, 0, {})
  {
    forall k | 0 <= k < |cols| ensures Normalize(Normalize(cols[k])) == Normalize(cols[k]) {
      NormalizeIdempotent(cols[k]);
    }
    VisitAsWrittenAgrees(cols, Normalize, 0, {}, {}, st);
  }

  /** "a1\n" loses the digit before its final line break. */
  lemma NormalizeBreakDigit()
    ensures Normalize("a1\n") == "a\n"
  {
    var x := "a1\n";
    assert Lower(x) == x;
    assert x[..2] == "a1" && "a1"[..1] == "a";
    assert TrailingNumbering("a") == 0;
    assert TrailingNumbering("a1") == 1;
  }

  /** "a1\n_" loses only its final underscore. */
  lemma NormalizeBreakUnderscore()
    ensures Normalize("a1\n_") == "a1\n"
  {
    var y := "a1\n_";
    assert Lower(y) == y;
    assert y[..3] == "a1\n";
    assert TrailingNumbering("a1\n") == 0;
    assert TrailingNumbering(y) == 1;
  }

  /** With the columns "a1\n" and "a1\n_" the written loop loses the second:
      the first normalises to "a\n" and marks its own name "a1\n" as
      processed, which is the second column's normalised name. */
  lemma LineBreakColumnLost(cols: seq<string>, st: Strategy)
    requires cols == ["a1\n", "a1\n_"]
    ensures Normalize(cols[1]) !in VisitAsWritten(cols, Normalize, 0, {}, st)
    ensures Normalize(cols[1]) in VisitKeys(cols, Normalize, 0, {})
  {
    NormalizeBreakDigit();
    NormalizeBreakUnderscore();
    MarkedNameHidesKey(cols, Normalize, st);
  }

  /** Two columns where the second's key is the first's original name and
      differs from the first's key: the written loop never combines the
      second key, the corrected one does. */
  lemma MarkedNameHidesKey(cols: seq<string>, key: string -> string, st: Strategy)
    requires |cols| == 2 && key(cols[1]) == cols[0] && key(cols[0]) != cols[0]
    ensures key(cols[1]) !in VisitAsWritten(cols, key, 0, {}, st)
    ensures key(cols[1]) in VisitKeys(cols, key, 0, {})
  {
    var n := key(cols[0]);
    var marked := Marked(cols, key, n, st);
    assert cols[0] in marked && {} + marked == marked;
    assert VisitAsWritten(cols, key, 1, marked, st) == [];
    assert VisitAsWritten(cols, key, 0, {}, st) == [n] + VisitAsWritten(cols, key, 1, marked, st);
    assert KeysOf(cols, key)[1] == key(cols[1]);
  }

  // ----- Combining the columns under one key -----

  /** The repository's two versions of the step. */
  datatype Strategy =
    | TrimAll            // every key's values are stringified, stripped and filtered
    | CombineCollisions  // only keys shared by several columns are combined

  /** One entry of the source's `col_map`: a name and its values. */
  datatype Series = Series(name: string, values: seq<string>)

  /** The non-missing values of the columns `ms`, column after column. */
  function GroupValues(t: Table, ms: seq<string>): (vs: seq<string>)
    requires Wf(t) && forall k :: 0 <= k < |ms| ==> ms[k] in t.columns
    decreases |ms|
  {
    if ms == [] then [] else Present(ColumnCells(t, ms[0])) + GroupValues(t, ms[1..])
  }

  /** A value is stacked exactly when some member column holds it in some row. */
  lemma {:induction false} GroupValuesMember(t: Table, ms: seq<string>, v: string)
    requires Wf(t) && forall k :: 0 <= k < |ms| ==> ms[k] in t.columns
    ensures v in GroupValues(t, ms) <==>
      exists k, i :: 0 <= k < |ms| && 0 <= i < |t.rows| && Get(t, t.rows[i], ms[k]) == Some(v)
    decreases |ms|
  {
    if ms != [] {
      var cells := ColumnCells(t, ms[0]);
      GroupValuesMember(t, ms[1..], v);
      if v in Present(cells) {
        var i :| 0 <= i < |cells| && cells[i] == Some(v);
        assert Get(t, t.rows[i], ms[0]) == Some(v);
      }
      if v in GroupValues(t, ms[1..]) {
        var k, i :| 0 <= k < |ms[1..]| && 0 <= i < |t.rows| && Get(t, t.rows[i], ms[1..][k]) == Some(v);
        assert Get(t, t.rows[i], ms[k + 1]) == Some(v);
      }
      if exists k, i :: 0 <= k < |ms| && 0 <= i < |t.rows| && Get(t, t.rows[i], ms[k]) == Some(v) {
        var k, i :| 0 <= k < |ms| && 0 <= i < |t.rows| && Get(t, t.rows[i], ms[k]) == Some(v);
        if k == 0 {
          assert cells[i] == Some(v);
        } else {
          assert ms[1..][k - 1] == ms[k];
        }
      }
    }
  }

  /** The present values of each of the columns `ms`, column by column. */
  function PresentColumns(t: Table, ms: seq<string>): (vss: seq<seq<string>>)
    requires Wf(t) && forall k :: 0 <= k < |ms| ==> ms[k] in t.columns
    ensures |vss| == |ms|
  {
    seq(|ms|, k requires 0 <= k < |ms| => Present(ColumnCells(t, ms[k])))
  }

  /** `pd.concat(..., ignore_index=True)`: the stacked values are the first
      column's present values, then the second's, and so on, each in row
      order. */
  lemma {:induction false} GroupValuesStacked(t: Table, ms: seq<string>)
    requires Wf(t) && forall k :: 0 <= k < |ms| ==> ms[k] in t.columns
    ensures GroupValues(t, ms) == Flatten(PresentColumns(t, ms))
    decreases |ms|
  {
    if ms != [] {
      GroupValuesStacked(t, ms[1..]);
      assert PresentColumns(t, ms)[1..] == PresentColumns(t, ms[1..]);
    }
  }

  /** A stringified value that survives `str.lower() != 'nan'`. */
  predicate NotNanText(v: string) {
    Lower(v) != "nan"
  }

  /** A value that survives `str.strip().str.lower() != 'nan'`. */
  predicate NotNanTrimmed(v: string) {
    NotNanText(Trim(v))
  }

  /** The series stored for key `n`, whose columns are `ms` (the source's
      `similar`). */
  function Combined(t: Table, st: Strategy, n: string, ms: seq<string>): (s: Series)
    requires Wf(t) && ms != [] && forall k :: 0 <= k < |ms| ==> ms[k] in t.columns
    ensures st.TrimAll? || |ms| > 1 ==> s.name == n
    ensures s.name == n || s.name == ms[0]
  {
    match st
    case TrimAll => Series(n, Filter(Map(GroupValues(t, ms), Trim), NotNanText))
    case CombineCollisions =>
      if |ms| > 1 then Series(n, Filter(GroupValues(t, ms), NotNanTrimmed))
      else Series(ms[0], Present(ColumnCells(t, ms[0])))
  }

  /** The order of a combined column: the member columns' values stacked
      column after column, then trimmed and filtered (`TrimAll`), filtered
      (`CombineCollisions`, shared key) or kept as they are (lone column). */
  lemma CombinedStacked(t: Table, st: Strategy, n: string, ms: seq<string>)
    requires Wf(t) && ms != [] && forall k :: 0 <= k < |ms| ==> ms[k] in t.columns
    ensures st.TrimAll? ==>
      Combined(t, st, n, ms).values == Filter(Map(Flatten(PresentColumns(t, ms)), Trim), NotNanText)
    ensures st.CombineCollisions? && |ms| > 1 ==>
      Combined(t, st, n, ms).values == Filter(Flatten(PresentColumns(t, ms)), NotNanTrimmed)
    ensures st.CombineCollisions? && |ms| == 1 ==>
      Combined(t, st, n, ms).values == PresentColumns(t, ms)[0]
  {
    GroupValuesStacked(t, ms);
  }

  /** Some member cell holds a value that `f` maps to `w`. */
  predicate HasImage(t: Table, ms: seq<string>, f: string -> string, w: string)
    requires Wf(t) && forall k :: 0 <= k < |ms| ==> ms[k] in t.columns
  {
    exists k, i :: 0 <= k < |ms| && 0 <= i < |t.rows| && Get(t, t.rows[i], ms[k]).Some? && f(Get(t, t.rows[i], ms[k]).value) == w
  }

  lemma MappedGroupValuesSound(t: Table, ms: seq<string>, f: string -> string, w: string)
    requires Wf(t) && forall k :: 0 <= k < |ms| ==> ms[k] in t.columns
    requires w in Map(GroupValues(t, ms), f)
    ensures HasImage(t, ms, f, w)
  {
    var vs := GroupValues(t, ms);
    MapMember(vs, f, w);
    var j :| 0 <= j < |vs| && f(vs[j]) == w;
    GroupValuesMember(t, ms, vs[j]);
    var k, i :| 0 <= k < |ms| && 0 <= i < |t.rows| && Get(t, t.rows[i], ms[k]) == Some(vs[j]);
    assert Get(t, t.rows[i], ms[k]).Some? && f(Get(t, t.rows[i], ms[k]).value) == w;
  }

  lemma MappedGroupValuesComplete(t: Table, ms: seq<string>, f: string -> string, w: string)
    requires Wf(t) && forall k :: 0 <= k < |ms| ==> ms[k] in t.columns
    requires HasImage(t, ms, f, w)
    ensures w in Map(GroupValues(t, ms), f)
  {
    var vs := GroupValues(t, ms);
    var k, i :| 0 <= k < |ms| && 0 <= i < |t.rows| && Get(t, t.rows[i], ms[k]).Some? && f(Get(t, t.rows[i], ms[k]).value) == w;
    var v := Get(t, t.rows[i], ms[k]).value;
    GroupValuesMember(t, ms, v);
    assert Get(t, t.rows[i], ms[k]) == Some(v);
    MapOfMember(vs, f, v);
  }

  /** A value is an image of a stacked value exactly when some member cell
      maps to it. */
  lemma MappedGroupValues(t: Table, ms: seq<string>, f: string -> string, w: string)
    requires Wf(t) && forall k :: 0 <= k < |ms| ==> ms[k] in t.columns
    ensures w in Map(GroupValues(t, ms), f) <==> HasImage(t, ms, f, w)
  {
    if w in Map(GroupValues(t, ms), f) {
      MappedGroupValuesSound(t, ms, f, w);
    }
    if HasImage(t, ms, f, w) {
      MappedGroupValuesComplete(t, ms, f, w);
    }
  }

  /** `TrimAll`: a value is in the combined column exactly when it is not
      "nan" in any letter case and some member cell trims to it. */
  lemma CombinedTrimAll(t: Table, n: string, ms: seq<string>, w: string)
    requires Wf(t) && ms != [] && forall k :: 0 <= k < |ms| ==> ms[k] in t.columns
    ensures Combined(t, TrimAll, n, ms).name == n
    ensures w in Combined(t, TrimAll, n, ms).values <==>
      NotNanText(w) && exists k, i :: 0 <= k < |ms| && 0 <= i < |t.rows| && TrimsTo(Get(t, t.rows[i], ms[k]), w)
  {
    MappedGroupValues(t, ms, Trim, w);
  }

  /** `CombineCollisions` on a shared key: a value is kept exactly as some
      member cell holds it, unless it strips to "nan" in any letter case. */
  lemma CombinedShared(t: Table, n: string, ms: seq<string>, w: string)
    requires Wf(t) && |ms| > 1 && forall k :: 0 <= k < |ms| ==> ms[k] in t.columns
    ensures Combined(t, CombineCollisions, n, ms).name == n
    ensures w in Combined(t, CombineCollisions, n, ms).values <==>
      NotNanTrimmed(w) && exists k, i :: 0 <= k < |ms| && 0 <= i < |t.rows| && Get(t, t.rows[i], ms[k]) == Some(w)
  {
    GroupValuesMember(t, ms, w);
  }

  /** `CombineCollisions` on a key of one column: the column keeps its own
      name and its non-missing values, "nan" text included. */
  lemma CombinedLone(t: Table, n: string, c: string, w: string)
    requires Wf(t) && c in t.columns
    ensures Combined(t, CombineCollisions, n, [c]).name == c
    ensures w in Combined(t, CombineCollisions, n, [c]).values <==>
      exists i :: 0 <= i < |t.rows| && Get(t, t.rows[i], c) == Some(w)
  {
    var cells := ColumnCells(t, c);
    if w in Present(cells) {
      var i :| 0 <= i < |cells| && cells[i] == Some(w);
    }
  }

  /** A key of some column has at least one member column. */
  lemma KeyHasMembers(cols: seq<string>, key: string -> string, n: string)
    requires n in KeysOf(cols, key)
    ensures Members(cols, key, n) != []
    ensures forall k :: 0 <= k < |Members(cols, key, n)| ==> Members(cols, key, n)[k] in cols
  {
    var k :| 0 <= k < |cols| && KeysOf(cols, key)[k] == n;
    assert cols[k] in Members(cols, key, n);
  }

  /** The series of key `n`. */
  function SeriesFor(t: Table, st: Strategy, n: string): (s: Series)
    requires Wf(t) && n in KeysOf(t.columns, Normalize)
    ensures st.TrimAll? ==> s.name == n
    ensures s.name == n || (s.name in t.columns && Normalize(s.name) == n)
  {
    KeyHasMembers(t.columns, Normalize, n);
    var ms := Members(t.columns, Normalize, n);
    assert ms[0] in ms;
    Combined(t, st, n, ms)
  }

  /** The keys the corrected loop combines. */
  function CombinedKeys(t: Table): (ks: seq<string>)
    ensures NoDup(ks)
    ensures forall n :: n in ks <==> n in KeysOf(t.columns, Normalize)
  {
    var ks := VisitKeys(t.columns, Normalize, 0, {});
    assert KeysOf(t.columns, Normalize)[0..] == KeysOf(t.columns, Normalize);
    ks
  }

  /** The corrected loop lists its keys in order of first occurrence, once
      every key before position `i` has been seen; all come from position
      `i` on. */
  lemma {:induction false} VisitKeysOrder(cols: seq<string>, key: string -> string, i: nat, seen: set<string>)
    requires i <= |cols|
    requires forall j :: 0 <= j < i ==> KeysOf(cols, key)[j] in seen
    ensures InFirstOrder(VisitKeys(cols, key, i, seen), KeysOf(cols, key))
    ensures forall a :: 0 <= a < |VisitKeys(cols, key, i, seen)| ==>
      FirstIndex(KeysOf(cols, key), VisitKeys(cols, key, i, seen)[a]) >= i
    decreases |cols| - i
  {
    var s := KeysOf(cols, key);
    if i < |cols| {
      var n := key(cols[i]);
      if n in seen {
        VisitKeysOrder(cols, key, i + 1, seen);
      } else {
        VisitKeysOrder(cols, key, i + 1, seen + {n});
        var rest := VisitKeys(cols, key, i + 1, seen + {n});
        assert VisitKeys(cols, key, i, seen) == [n] + rest;
        assert s[i] == n;
        assert FirstIndex(s, n) == i;
      }
    }
  }

  /** The corrected loop combines the keys of the source's dict in the
      dict's order, first appearance first; the first is the first column's
      key. */
  lemma CombinedKeysOrder(t: Table)
    ensures InFirstOrder(CombinedKeys(t), KeysOf(t.columns, Normalize))
    ensures CombinedKeys(t) == GroupKeys(t.columns, Normalize)
    ensures t.columns != [] ==> CombinedKeys(t)[0] == Normalize(t.columns[0])
  {
    var cols := t.columns;
    VisitKeysOrder(cols, Normalize, 0, {});
    GroupKeysOrder(cols, Normalize);
    InFirstOrderUnique(CombinedKeys(t), GroupKeys(cols, Normalize), KeysOf(cols, Normalize));
  }

  /** The series in the order their keys are first met. */
  function SeriesList(t: Table, st: Strategy): (ss: seq<Series>)
    requires Wf(t)
    ensures |ss| == |CombinedKeys(t)|
  {
    var ks := CombinedKeys(t);
    seq(|ks|, j requires 0 <= j < |ks| => SeriesFor(t, st, ks[j]))
  }

  // ----- The insertion-ordered dictionary `col_map` -----

  /** The names of the entries, in order. */
  function Names(ss: seq<Series>): (ns: seq<string>)
    ensures |ns| == |ss| && forall k :: 0 <= k < |ss| ==> ns[k] == ss[k].name
  {
    seq(|ss|, k requires 0 <= k < |ss| => ss[k].name)
  }

  /** `col_map[name] = values`: a name already present keeps its place and
      takes the new values, a new name goes last. */
  function Put(d: seq<Series>, s: Series): (r: seq<Series>)
    requires NoDup(Names(d))
    ensures NoDup(Names(r))
    ensures s in r
    ensures s.name !in Names(d) ==> r == d + [s]
    ensures s.name in Names(d) ==> Names(r) == Names(d)
  {
    if s.name in Names(d) then
      var i := FirstIndex(Names(d), s.name);
      var r := d[..i] + [s] + d[i + 1..];
      assert Names(r) == Names(d) by {
        forall k | 0 <= k < |r| ensures r[k].name == d[k].name {
          if k < i { assert r[k] == d[k]; }
          else if k > i { assert r[k] == d[k]; }
        }
      }
      assert r[i] == s;
      r
    else
      var r := d + [s];
      assert Names(r) == Names(d) + [s.name];
      NoDupAppend(Names(d), [s.name]);
      r
  }

  /** Storing the series one after the other. */
  function PutAll(d: seq<Series>, ss: seq<Series>): (r: seq<Series>)
    requires NoDup(Names(d))
    ensures NoDup(Names(r))
    decreases |ss|
  {
    if ss == [] then d else PutAll(Put(d, ss[0]), ss[1..])
  }

  /** With distinct names nothing is overwritten: the dictionary holds the
      series in order. */
  lemma {:induction false} PutAllFresh(d: seq<Series>, ss: seq<Series>)
    requires NoDup(Names(d + ss))
    ensures NoDup(Names(d))
    ensures PutAll(d, ss) == d + ss
    decreases |ss|
  {
    if ss == [] {
      assert d + ss == d;
    } else {
      FreshSplit(d, ss);
      PutAllFresh(d + [ss[0]], ss[1..]);
    }
  }

  /** Distinct names in `d + ss` stay distinct in `d`, and the first name of
      `ss` is not among them. */
  lemma FreshSplit(d: seq<Series>, ss: seq<Series>)
    requires ss != [] && NoDup(Names(d + ss))
    ensures NoDup(Names(d)) && ss[0].name !in Names(d)
    ensures d + ss == (d + [ss[0]]) + ss[1..]
  {
    var n := Names(d + ss);
    forall i, j | 0 <= i < j < |d| ensures Names(d)[i] != Names(d)[j] {
      assert Names(d)[i] == n[i] && Names(d)[j] == n[j];
    }
    assert forall i :: 0 <= i < |d| ==> Names(d)[i] == n[i];
    assert ss[0].name == n[|d|];
  }

  // ----- The padded frame -----

  /** Index of a longest series. */
  function Longest(ss: seq<Series>): (k: nat)
    requires ss != []
    ensures k < |ss| && forall j :: 0 <= j < |ss| ==> |ss[j].values| <= |ss[k].values|
    decreases |ss|
  {
    if |ss| == 1 then 0
    else
      var k := Longest(ss[1..]);
      assert forall j :: 1 <= j < |ss| ==> ss[j] == ss[1..][j - 1];
      if |ss[0].values| >= |ss[k + 1].values| then 0 else k + 1
  }

  /** Position `i` of `reindex(range(max_len))`. */
  function PadCell(vs: seq<string>, i: nat): Cell {
    if i < |vs| then Some(vs[i]) else None
  }

  /** `pd.DataFrame(col_map)` after every series is reindexed to the longest
      length. */
  function Frame(ss: seq<Series>): (t: Table)
    requires ss != [] && NoDup(Names(ss))
    ensures Wf(t) && t.columns == Names(ss)
    ensures forall k :: 0 <= k < |ss| ==> |ss[k].values| <= |t.rows|
  {
    var m := |ss[Longest(ss)].values|;
    Table(Names(ss), seq(m, i requires 0 <= i < m =>
      seq(|ss|, k requires 0 <= k < |ss| => PadCell(ss[k].values, i))))
  }

  /** Dropping the missing cells of a padded series gives the series back. */
  lemma {:induction false} PresentPadded(vs: seq<string>, m: nat, cells: seq<Cell>)
    requires |vs| <= m && |cells| == m
    requires forall i :: 0 <= i < m ==> cells[i] == PadCell(vs, i)
    ensures Present(cells) == vs
    decreases m
  {
    if m > 0 {
      if vs == [] {
        assert cells[0] == None;
        PresentPadded([], m - 1, cells[1..]);
      } else {
        assert cells[0] == Some(vs[0]);
        PresentPadded(vs[1..], m - 1, cells[1..]);
        assert [vs[0]] + vs[1..] == vs;
      }
    }
  }

  /** Each column of the frame reads back its series, and no row is all
      padding: the frame is no longer than its longest series. */
  lemma FrameColumns(ss: seq<Series>, k: nat)
    requires ss != [] && NoDup(Names(ss)) && k < |ss|
    ensures Present(ColumnCells(Frame(ss), ss[k].name)) == ss[k].values
    ensures forall i :: 0 <= i < |Frame(ss).rows| ==>
      ColumnCells(Frame(ss), ss[k].name)[i] == (if i < |ss[k].values| then Some(ss[k].values[i]) else None)
    ensures forall i :: 0 <= i < |Frame(ss).rows| ==> Frame(ss).rows[i][Longest(ss)].Some?
  {
    var t := Frame(ss);
    var cells := ColumnCells(t, ss[k].name);
    assert FirstIndex(t.columns, ss[k].name) == k by {
      var j := FirstIndex(t.columns, ss[k].name);
      assert t.columns[j] == t.columns[k];
    }
    forall i | 0 <= i < |t.rows| ensures cells[i] == PadCell(ss[k].values, i) {
      assert cells[i] == Get(t, t.rows[i], ss[k].name);
    }
    PresentPadded(ss[k].values, |t.rows|, cells);
  }

  // ----- The step -----

  /** Names that cannot be combined: the table has no column, so `max()` of
      the series lengths has nothing to take. */
  datatype CombineError = NoColumns

  /** `_normalize_and_combine_columns` followed by `pd.DataFrame(col_map)`. */
  function CombineColumns(t: Table, st: Strategy): (r: Result<Table, CombineError>)
    requires Wf(t)
    ensures r.Failure? <==> t.columns == []
    ensures r.Success? ==> Wf(r.value) && r.value.columns != []
  {
    if t.columns == [] then Failure(NoColumns)
    else
      var ss := SeriesList(t, st);
      assert ss != [] by {
        assert KeysOf(t.columns, Normalize)[0] in CombinedKeys(t);
      }
      var d := PutAll([], ss);
      assert d != [] by {
        PutAllSome(ss[0], [], ss);
      }
      Success(Frame(d))
  }

  /** Every stored series leaves an entry under its name. */
  lemma {:induction false} PutAllSome(s: Series, d: seq<Series>, ss: seq<Series>)
    requires NoDup(Names(d)) && (s in d || s in ss)
    ensures s.name in Names(PutAll(d, ss))
    decreases |ss|
  {
    if ss == [] {
      var k :| 0 <= k < |d| && d[k] == s;
      assert Names(d)[k] == s.name;
    } else {
      var d2 := Put(d, ss[0]);
      if s in ss[1..] {
        PutAllSome(s, d2, ss[1..]);
      } else {
        if s == ss[0] {
          var k :| 0 <= k < |d2| && d2[k] == s;
          assert Names(d2)[k] == s.name;
        } else {
          var k :| 0 <= k < |d| && d[k] == s;
          assert Names(d)[k] == s.name;
          NamesGrow(d, ss[0], s.name);
        }
        PutAllNames(d2, ss[1..], s.name);
      }
    }
  }

  /** `Put` keeps every name. */
  lemma NamesGrow(d: seq<Series>, s: Series, x: string)
    requires NoDup(Names(d)) && x in Names(d)
    ensures x in Names(Put(d, s))
  {
    var r := Put(d, s);
    if s.name !in Names(d) {
      var k :| 0 <= k < |d| && Names(d)[k] == x;
      assert Names(r)[k] == x;
    }
  }

  /** `PutAll` keeps every name. */
  lemma {:induction false} PutAllNames(d: seq<Series>, ss: seq<Series>, x: string)
    requires NoDup(Names(d)) && x in Names(d)
    ensures x in Names(PutAll(d, ss))
    decreases |ss|
  {
    if ss != [] {
      NamesGrow(d, ss[0], x);
      PutAllNames(Put(d, ss[0]), ss[1..], x);
    }
  }

  /** Without line breaks in the names, each series' name normalises to its
      key: it is the key itself, or a lone column kept under its own name. */
  lemma SeriesNameKey(t: Table, st: Strategy, j: nat)
    requires Wf(t) && j < |CombinedKeys(t)| && NoLineBreaks(t.columns)
    ensures Normalize(SeriesList(t, st)[j].name) == CombinedKeys(t)[j]
  {
    var n := CombinedKeys(t)[j];
    var s := SeriesList(t, st)[j];
    assert s == SeriesFor(t, st, n);
    if s.name == n {
      assert n in CombinedKeys(t);
      var ks := KeysOf(t.columns, Normalize);
      assert n in ks;
      var k :| 0 <= k < |ks| && ks[k] == n;
      NormalizeIdempotent(t.columns[k]);
    }
  }

  /** The series names are distinct: keys under `TrimAll`, and under
      `CombineCollisions` as long as no name has a line break. */
  lemma SeriesNamesDistinct(t: Table, st: Strategy)
    requires Wf(t)
    requires st.TrimAll? || NoLineBreaks(t.columns)
    ensures NoDup(Names(SeriesList(t, st)))
  {
    var ss := SeriesList(t, st);
    var ks := CombinedKeys(t);
    forall i, j | 0 <= i < j < |ss| ensures ss[i].name != ss[j].name {
      if st.TrimAll? {
        assert ss[i].name == ks[i] && ss[j].name == ks[j];
      } else {
        SeriesNameKey(t, st, i);
        SeriesNameKey(t, st, j);
      }
    }
  }

  /** Under the conditions of `SeriesNamesDistinct` nothing is overwritten:
      the step's frame is the frame of the series list. */
  lemma CombineColumnsIsFrame(t: Table, st: Strategy)
    requires Wf(t) && t.columns != []
    requires st.TrimAll? || NoLineBreaks(t.columns)
    ensures SeriesList(t, st) != [] && NoDup(Names(SeriesList(t, st)))
    ensures CombineColumns(t, st) == Success(Frame(SeriesList(t, st)))
  {
    var ss := SeriesList(t, st);
    SeriesNamesDistinct(t, st);
    assert [] + ss == ss;
    PutAllFresh([], ss);
  }

  /** Under the conditions of `SeriesNamesDistinct` the frame has one column
      per key, in the order the keys are first met, and each column reads
      back the values combined for its key. */
  lemma CombineColumnsFrame(t: Table, st: Strategy, j: nat)
    requires Wf(t) && t.columns != []
    requires st.TrimAll? || NoLineBreaks(t.columns)
    requires j < |SeriesList(t, st)|
    ensures CombineColumns(t, st).Success?
    ensures CombineColumns(t, st).value.columns == Names(SeriesList(t, st))
    ensures Present(ColumnCells(CombineColumns(t, st).value, SeriesList(t, st)[j].name)) == SeriesList(t, st)[j].values
  {
    CombineColumnsIsFrame(t, st);
    FrameColumns(SeriesList(t, st), j);
  }

  /** `reindex(range(max_len))`: each column of the frame holds its series'
      values from the top, in order, and is padded with missing cells below
      them. */
  lemma CombineColumnsPadded(t: Table, st: Strategy, j: nat)
    requires Wf(t) && t.columns != []
    requires st.TrimAll? || NoLineBreaks(t.columns)
    requires j < |SeriesList(t, st)|
    ensures CombineColumns(t, st).Success?
    ensures SeriesList(t, st)[j].name in CombineColumns(t, st).value.columns
    ensures forall i :: 0 <= i < |CombineColumns(t, st).value.rows| ==>
      ColumnCells(CombineColumns(t, st).value, SeriesList(t, st)[j].name)[i] ==
        (if i < |SeriesList(t, st)[j].values| then Some(SeriesList(t, st)[j].values[i]) else None)
  {
    var ss := SeriesList(t, st);
    CombineColumnsIsFrame(t, st);
    assert Names(ss)[j] == ss[j].name;
    FrameColumns(ss, j);
  }

  /** The frame's first column belongs to the input's first column: it is
      that column's key, or under `CombineCollisions` the column's own name
      when no other column shares the key. */
  lemma CombineColumnsFirst(t: Table, st: Strategy)
    requires Wf(t) && t.columns != []
    requires st.TrimAll? || NoLineBreaks(t.columns)
    ensures CombineColumns(t, st).Success?
    ensures CombineColumns(t, st).value.columns != []
    ensures CombineColumns(t, st).value.columns[0] ==
      if st.TrimAll? || |Members(t.columns, Normalize, Normalize(t.columns[0]))| > 1
      then Normalize(t.columns[0]) else t.columns[0]
  {
    var ss := SeriesList(t, st);
    var n := Normalize(t.columns[0]);
    CombineColumnsIsFrame(t, st);
    CombinedKeysOrder(t);
    GroupKeysFirst(t.columns, Normalize);
    assert ss[0] == SeriesFor(t, st, n);
    assert Names(ss)[0] == ss[0].name;
  }
}
