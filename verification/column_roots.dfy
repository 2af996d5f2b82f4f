/** Column-name handling of the cleaner (`clean_data`): the normalised name
    `strip().lower()`, and the root the pattern `^(.*?)(?:[._\s]*\d*)?$`
    assigns to a name, by which columns are grouped for merging. */
module ColumnRoots {
  import opened Seqs
  import opened Text

  /** `col.strip().lower()`. */
  function CleanName(c: string): (r: string)
    ensures |r| <= |c|
  {
    Lower(Trim(c))
  }

  /** A normalised name has no upper-case letter and no whitespace at either end. */
  lemma CleanNameShape(c: string)
    ensures forall k :: 0 <= k < |CleanName(c)| ==> !IsUpper(CleanName(c)[k])
    ensures CleanName(c) == [] || (!IsSpace(CleanName(c)[0]) && !IsSpace(CleanName(c)[|CleanName(c)| - 1]))
  {
    var y := Trim(c);
    TrimEdges(c);
    if y != [] {
      assert Lower(y)[0] == LowerChar(y[0]);
      assert Lower(y)[|y| - 1] == LowerChar(y[|y| - 1]);
    }
  }

  /** Normalising a normalised name changes nothing. */
  lemma CleanNameIdempotent(c: string)
    ensures CleanName(CleanName(c)) == CleanName(c)
  {
    var n := CleanName(c);
    CleanNameShape(c);
    TrimFixed(n);
    LowerIdempotent(Trim(c));
  }

  /** The normalised names, position by position. */
  function CleanNames(cols: seq<string>): (ns: seq<string>)
    ensures |ns| == |cols|
    ensures forall k :: 0 <= k < |cols| ==> ns[k] == CleanName(cols[k])
  {
    seq(|cols|, k requires 0 <= k < |cols| => CleanName(cols[k]))
  }

  /** Characters of the class `[._\s]`. */
  predicate IsRootSep(c: char) {
    c == '.' || c == '_' || IsSpace(c)
  }

  predicate AllDigits(s: string) {
    forall k :: 0 <= k < |s| ==> IsDigit(s[k])
  }

  predicate AllRootSeps(s: string) {
    forall k :: 0 <= k < |s| ==> IsRootSep(s[k])
  }

  /** Length of the maximal run of digits at the end of `s`. */
  function TrailingDigits(s: string): (n: nat)
    ensures n <= |s| && forall k :: |s| - n <= k < |s| ==> IsDigit(s[k])
    ensures n == |s| || !IsDigit(s[|s| - n - 1])
    decreases |s|
  {
    if s == [] || !IsDigit(s[|s| - 1]) then 0 else 1 + TrailingDigits(s[..|s| - 1])
  }

  /** Length of the maximal run of `[._\s]` characters at the end of `s`. */
  function TrailingRootSeps(s: string): (n: nat)
    ensures n <= |s| && forall k :: |s| - n <= k < |s| ==> IsRootSep(s[k])
    ensures n == |s| || !IsRootSep(s[|s| - n - 1])
    decreases |s|
  {
    if s == [] || !IsRootSep(s[|s| - 1]) then 0 else 1 + TrailingRootSeps(s[..|s| - 1])
  }

  /** The shortest prefix the pattern's lazy `(.*?)` can stop at: the name
      without its trailing digits and then without the separators before them. */
  function Stem(c: string): (p: string)
    ensures |p| <= |c| && p == c[..|p|]
  {
    var d := c[..|c| - TrailingDigits(c)];
    d[..|d| - TrailingRootSeps(d)]
  }

  /** `c` reads as `p`, then separators, then digits. */
  predicate SplitsAs(c: string, p: string, seps: string, digits: string) {
    c == p + seps + digits && AllRootSeps(seps) && AllDigits(digits)
  }

  /** The digits the pattern's `\d*` takes at the end of the name. */
  function DigitRun(c: string): (ds: string)
    ensures AllDigits(ds)
  {
    c[|c| - TrailingDigits(c)..]
  }

  /** The separators the pattern's `[._\s]*` takes before the digits. */
  function SepRun(c: string): (ss: string)
    ensures AllRootSeps(ss)
  {
    var d := c[..|c| - TrailingDigits(c)];
    d[|d| - TrailingRootSeps(d)..]
  }

  /** A sequence is its three consecutive slices. */
  lemma SliceThree(c: string, i: nat, j: nat)
    requires i <= j <= |c|
    ensures c == c[..i] + c[i..j] + c[j..]
  {
  }

  /** The stem, the separator run and the digit run read back the name. */
  lemma StemSplits(c: string)
    ensures SplitsAs(c, Stem(c), SepRun(c), DigitRun(c))
  {
    var j := |c| - TrailingDigits(c);
    var d := c[..j];
    var i := j - TrailingRootSeps(d);
    SliceThree(c, i, j);
    assert Stem(c) == c[..i] && SepRun(c) == c[i..j] && DigitRun(c) == c[j..];
  }

  /** Digits from position `k` on are all counted. */
  lemma {:induction false} TrailingDigitsFrom(c: string, k: nat)
    requires k <= |c| && forall q :: k <= q < |c| ==> IsDigit(c[q])
    ensures TrailingDigits(c) >= |c| - k
    decreases |c|
  {
    if k < |c| {
      var init := c[..|c| - 1];
      TrailingDigitsFrom(init, k);
    }
  }

  /** The digit run stops at a non-digit. */
  lemma {:induction false} TrailingDigitsStop(c: string, k: nat)
    requires 0 < k <= |c| && !IsDigit(c[k - 1])
    ensures TrailingDigits(c) <= |c| - k
    decreases |c|
  {
    if k < |c| {
      var init := c[..|c| - 1];
      TrailingDigitsStop(init, k);
    }
  }

  /** Separators from position `k` on are all counted. */
  lemma {:induction false} TrailingRootSepsFrom(c: string, k: nat)
    requires k <= |c| && forall q :: k <= q < |c| ==> IsRootSep(c[q])
    ensures TrailingRootSeps(c) >= |c| - k
    decreases |c|
  {
    if k < |c| {
      var init := c[..|c| - 1];
      TrailingRootSepsFrom(init, k);
    }
  }

  /** No reading of the name has a shorter first part than the stem, so the
      lazy group stops at the stem. */
  lemma StemShortest(c: string, p: string, seps: string, digits: string)
    requires SplitsAs(c, p, seps, digits)
    ensures |Stem(c)| <= |p|
  {
    var j := |p| + |seps|;
    assert forall q :: j <= q < |c| ==> c[q] == digits[q - j];
    TrailingDigitsFrom(c, j);
    if seps != [] {
      assert c[j - 1] == seps[|seps| - 1];
      TrailingDigitsStop(c, j);
      var d := c[..j];
      assert forall q :: |p| <= q < |d| ==> d[q] == seps[q - |p|];
      TrailingRootSepsFrom(d, |p|);
    }
  }

  /** The pattern matches only when the stem has no line break, since `.`
      does not match one; otherwise `match()` returns `None` and the program
      fails on `.group(1)`. */
  predicate RootMatches(c: string) {
    '\n' !in Stem(c)
  }

  /** `pat.match(col).group(1).strip()`. */
  function Root(c: string): (r: string)
    ensures |r| <= |c|
  {
    Trim(Stem(c))
  }

  /** A numbered copy of a name shares its root: "price_1", "price.2" and
      "price 3" all group with "price". */
  lemma NumberedCopyRoot(base: string, e: char, digits: string)
    requires base != [] && !IsDigit(base[|base| - 1]) && !IsRootSep(base[|base| - 1])
    requires IsRootSep(e) && AllDigits(digits)
    ensures Root(base + [e] + digits) == Root(base)
  {
    var c := base + [e] + digits;
    var j := |base| + 1;
    assert forall q :: j <= q < |c| ==> c[q] == digits[q - j];
    assert c[j - 1] == e;
    TrailingDigitsFrom(c, j);
    TrailingDigitsStop(c, j);
    var d := c[..j];
    assert d[..|base|] == base;
    assert Stem(c) == base;
    assert base[..|base|] == base;
  }
}
