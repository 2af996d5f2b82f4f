/** Character-level text operations standing in for Python's `str` methods
    and the regular-expression classes the program uses. */
module Text {
  import opened Seqs

  /** Python's `str.isspace()`, which is also what `\s` matches in a `str`
      regular expression and what `str.strip()` removes. */
  predicate IsSpace(c: char) {
    || c == ' '
    || ('\t' <= c <= '\r')
    || ('\U{1C}' <= c <= '\U{1F}')
    || c == '\U{85}' || c == '\U{A0}' || c == '\U{1680}'
    || ('\U{2000}' <= c <= '\U{200A}')
    || c == '\U{2028}' || c == '\U{2029}' || c == '\U{202F}' || c == '\U{205F}' || c == '\U{3000}'
  }

  /** `\d` restricted to ASCII digits. */
  predicate IsDigit(c: char) {
    '0' <= c <= '9'
  }

  predicate IsUpper(c: char) {
    'A' <= c <= 'Z'
  }

  predicate AllSpace(s: string) {
    forall k :: 0 <= k < |s| ==> IsSpace(s[k])
  }

  /** Length of the maximal whitespace run at the start of `s`. */
  function LeadingSpaces(s: string): (n: nat)
    ensures n <= |s| && AllSpace(s[..n])
    ensures n == |s| || !IsSpace(s[n])
    decreases |s|
  {
    if s == [] || !IsSpace(s[0]) then 0 else 1 + LeadingSpaces(s[1..])
  }

  /** Length of the maximal whitespace run at the end of `s`. */
  function TrailingSpaces(s: string): (n: nat)
    ensures n <= |s| && AllSpace(s[|s| - n..])
    ensures n == |s| || !IsSpace(s[|s| - n - 1])
    ensures s != [] && !IsSpace(s[0]) ==> n < |s|
    decreases |s|
  {
    if s == [] || !IsSpace(s[|s| - 1]) then 0 else 1 + TrailingSpaces(s[..|s| - 1])
  }

  /** Where `str.strip()` starts keeping characters. */
  function TrimStart(s: string): (i: nat)
    ensures i <= |s|
  {
    LeadingSpaces(s)
  }

  /** Where `str.strip()` stops keeping characters. */
  function TrimEnd(s: string): (e: nat)
    ensures TrimStart(s) <= e <= |s|
  {
    |s| - TrailingSpaces(s[TrimStart(s)..])
  }

  /** Python's `str.strip()`: `s` without the whitespace at both ends. */
  function Trim(s: string): (r: string)
    ensures |r| <= |s|
  {
    s[TrimStart(s)..TrimEnd(s)]
  }

  /** Only whitespace is cut, on either side. */
  lemma TrimCut(s: string)
    ensures AllSpace(s[..TrimStart(s)]) && AllSpace(s[TrimEnd(s)..])
  {
    var i := TrimStart(s);
    var rest := s[i..];
    var j := TrailingSpaces(rest);
    SliceOfSlice(s, i, |rest| - j);
  }

  /** What is kept neither starts nor ends with whitespace. */
  lemma TrimEdges(s: string)
    ensures Trim(s) == [] || (!IsSpace(Trim(s)[0]) && !IsSpace(Trim(s)[|Trim(s)| - 1]))
  {
    var i := TrimStart(s);
    var rest := s[i..];
    var j := TrailingSpaces(rest);
    var r := Trim(s);
    if r != [] {
      assert r[0] == s[i] == rest[0];
      assert r[|r| - 1] == rest[|rest| - j - 1];
    }
  }

  /** `str.strip()` gives the empty string exactly on all-whitespace input. */
  lemma TrimEmpty(s: string)
    ensures Trim(s) == [] <==> AllSpace(s)
  {
    var i := TrimStart(s);
    var rest := s[i..];
    var j := TrailingSpaces(rest);
    if i == |s| {
      assert s[..i] == s;
    } else {
      assert rest[0] == s[i];
    }
  }

  /** Trimming never introduces a character. */
  lemma TrimChars(s: string, c: char)
    requires c in Trim(s)
    ensures c in s
  {
    var r := Trim(s);
    var k :| 0 <= k < |r| && r[k] == c;
    assert s[TrimStart(s) + k] == c;
  }

  /** A string without whitespace at its ends is its own trimming. */
  lemma TrimFixed(s: string)
    requires s == [] || (!IsSpace(s[0]) && !IsSpace(s[|s| - 1]))
    ensures Trim(s) == s
  {
    assert TrimStart(s) == 0;
    assert s[0..] == s;
  }

  /** Trimming is idempotent. */
  lemma TrimIdempotent(s: string)
    ensures Trim(Trim(s)) == Trim(s)
  {
    TrimEdges(s);
    TrimFixed(Trim(s));
  }

  function LowerChar(c: char): char {
    if IsUpper(c) then (c as int + 32) as char else c
  }

  /** Python's `str.lower()` on ASCII letters; other characters are kept. */
  function Lower(s: string): (r: string)
    ensures |r| == |s|
    ensures forall k :: 0 <= k < |r| ==> !IsUpper(r[k])
    ensures forall k :: 0 <= k < |r| ==> !IsUpper(s[k]) ==> r[k] == s[k]
  {
    seq(|s|, k requires 0 <= k < |s| => LowerChar(s[k]))
  }

  /** Lower-casing a lower-case string changes nothing. */
  lemma LowerIdempotent(s: string)
    ensures Lower(Lower(s)) == Lower(s)
  {
  }

  /** Python's `sub in s`. */
  predicate Contains(s: string, sub: string)
    decreases |s|
  {
    if |sub| > |s| then false
    else s[..|sub|] == sub || (s != [] && Contains(s[1..], sub))
  }

  /** `sub` occurs in `s` starting at offset `i`. */
  predicate OccursAt(s: string, sub: string, i: int) {
    0 <= i && i + |sub| <= |s| && s[i..i + |sub|] == sub
  }

  /** `Contains` finds exactly the occurrences of `sub` at some offset. */
  lemma {:induction false} ContainsIff(s: string, sub: string)
    ensures Contains(s, sub) <==> exists i :: OccursAt(s, sub, i)
    decreases |s|
  {
    if |sub| <= |s| && s != [] {
      ContainsIff(s[1..], sub);
      if s[..|sub|] == sub {
        assert OccursAt(s, sub, 0);
      }
      if exists i :: OccursAt(s, sub, i) {
        var i :| OccursAt(s, sub, i);
        if i > 0 {
          assert s[1..][i - 1..i - 1 + |sub|] == sub;
          assert OccursAt(s[1..], sub, i - 1);
        } else {
          assert s[..|sub|] == s[i..i + |sub|];
        }
      }
      if Contains(s[1..], sub) {
        var i :| OccursAt(s[1..], sub, i);
        assert s[i + 1..i + 1 + |sub|] == sub;
        assert OccursAt(s, sub, i + 1);
      }
    } else if |sub| <= |s| {
      assert OccursAt(s, sub, 0) <==> Contains(s, sub);
    }
  }

  function DigitChar(d: nat): char
    requires d < 10
  {
    ('0' as int + d) as char
  }

  /** Reading a string of ASCII digits as a decimal number, most significant first. */
  function DecimalValue(s: string): nat
    decreases |s|
  {
    if s == [] then 0
    else
      var d := s[|s| - 1] as int - '0' as int;
      DecimalValue(s[..|s| - 1]) * 10 + (if 0 <= d then d else 0)
  }

  /** Python's `str(n)` for a natural number: its decimal digits. */
  function NatToString(n: nat): (r: string)
    ensures |r| >= 1 && forall k :: 0 <= k < |r| ==> IsDigit(r[k])
    ensures DecimalValue(r) == n
    ensures r[0] == '0' ==> r == "0"
  {
    if n < 10 then [DigitChar(n)]
    else
      var p := NatToString(n / 10);
      var r := p + [DigitChar(n % 10)];
      assert r[..|r| - 1] == p;
      r
  }
}
