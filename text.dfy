/** The string primitives the diary relies on: `String.prototype.trim`,
    `includes`, the case-insensitive global match used to count search hits,
    and the default code-unit order of `Array.prototype.sort`. */
module Text {

  /** The characters `trim` removes: ECMAScript WhiteSpace (tab, vertical tab,
      form feed, the byte-order mark and every Unicode space separator) and
      LineTerminator (line feed, carriage return, U+2028, U+2029). */
  predicate IsSpace(c: char)
  {
    var n := c as int;
    n == 0x09 || n == 0x0A || n == 0x0B || n == 0x0C || n == 0x0D || n == 0x20 ||
    n == 0xA0 || n == 0x1680 || (0x2000 <= n <= 0x200A) || n == 0x2028 ||
    n == 0x2029 || n == 0x202F || n == 0x205F || n == 0x3000 || n == 0xFEFF
  }

  /** Every character of `s` is one that `trim` removes. */
  predicate Blank(s: string)
  {
    forall k :: 0 <= k < |s| ==> IsSpace(s[k])
  }

  /** `s` without its leading white space. */
  function TrimStart(s: string): (r: string)
    ensures |r| <= |s| && r == s[|s| - |r|..]
    ensures Blank(s[..|s| - |r|])
    ensures r != [] ==> !IsSpace(r[0])
  {
    if s != [] && IsSpace(s[0]) then
      var r := TrimStart(s[1..]);
      assert s[..|s| - |r|] == [s[0]] + s[1..][..|s[1..]| - |r|];
      r
    else
      s
  }

  /** `s` without its trailing white space. */
  function TrimEnd(s: string): (r: string)
    ensures |r| <= |s| && r == s[..|r|]
    ensures Blank(s[|r|..])
    ensures r != [] ==> !IsSpace(r[|r| - 1])
  {
    if s != [] && IsSpace(s[|s| - 1]) then
      var r := TrimEnd(s[..|s| - 1]);
      assert s[|r|..] == s[..|s| - 1][|r|..] + [s[|s| - 1]];
      r
    else
      s
  }

  /** `r` is `s[i..]` cut to `|r|` characters, with only white space before
      and after it. */
  predicate Surrounded(s: string, r: string, i: int)
  {
    0 <= i <= |s| - |r| && r == s[i..i + |r|] && Blank(s[..i]) && Blank(s[i + |r|..])
  }

  /** `String.prototype.trim`: the part of `s` between its leading and its
      trailing white space (TrimIsSurrounded below). */
  function Trim(s: string): (r: string)
    ensures r == [] <==> Blank(s)
    ensures r != [] ==> !IsSpace(r[0]) && !IsSpace(r[|r| - 1])
  {
    var t := TrimStart(s);
    assert t == [] ==> s == s[..|s| - |t|];
    TrimEnd(t)
  }

  /** The trimmed text is a slice of the original with only white space
      before and after it. */
  lemma TrimIsSurrounded(s: string)
    ensures exists i :: Surrounded(s, Trim(s), i)
  {
    var t := TrimStart(s);
    var r := TrimEnd(t);
    var i := |s| - |t|;
    assert r == Trim(s);
    assert r == s[i..i + |r|];
    assert s[i + |r|..] == t[|r|..];
    assert Surrounded(s, r, i);
  }

  /** Trimming is idempotent, so a trimmed entry is stored exactly as is. */
  lemma {:induction false} TrimIdempotent(s: string)
    ensures Trim(Trim(s)) == Trim(s)
  {
    var r := Trim(s);
    if r != [] {
      TrimStartOfTrimmed(r);
      TrimEndOfTrimmed(r);
    }
  }

  /** A text that does not start with white space loses nothing at its start. */
  lemma TrimStartOfTrimmed(r: string)
    requires r != [] && !IsSpace(r[0])
    ensures TrimStart(r) == r
  {
  }

  /** A text that does not end with white space loses nothing at its end. */
  lemma TrimEndOfTrimmed(r: string)
    requires r != [] && !IsSpace(r[|r| - 1])
    ensures TrimEnd(r) == r
  {
  }

  /** `s.includes(t)`: `t` occurs in `s` at some position. */
  predicate Contains(s: string, t: string): (b: bool)
    ensures t == [] ==> b
    ensures b ==> |t| <= |s|
  {
    assert t == [] ==> OccursAt(s, t, 0);
    exists i | 0 <= i <= |s| - |t| :: OccursAt(s, t, i)
  }

  /** `t` occurs in `s` starting at position `i`. */
  predicate OccursAt(s: string, t: string, i: int)
  {
    0 <= i <= |s| - |t| && s[i..i + |t|] == t
  }

  /** The canonical form the regular-expression `i` flag compares, restricted
      to the ASCII letters. */
  function FoldChar(c: char): (f: char)
    ensures !('A' <= f <= 'Z')
    ensures f != c ==> 'A' <= c <= 'Z' && f as int == c as int + 32
  {
    if 'A' <= c <= 'Z' then (c as int + 32) as char else c
  }

  function Fold(s: string): (r: string)
    ensures |r| == |s| && forall k :: 0 <= k < |s| ==> r[k] == FoldChar(s[k])
  {
    seq(|s|, k requires 0 <= k < |s| => FoldChar(s[k]))
  }

  /** Case folding is idempotent: a folded text has no upper-case letter
      left to fold. */
  lemma FoldIdempotent(s: string)
    ensures Fold(Fold(s)) == Fold(s)
  {
    var f := Fold(s);
    forall k | 0 <= k < |f|
      ensures Fold(f)[k] == f[k]
    {
      assert f[k] == FoldChar(s[k]);
    }
  }

  /** A text with no upper-case letter is its own folded form. */
  lemma FoldOfUnfoldable(s: string)
    requires forall k :: 0 <= k < |s| ==> !('A' <= s[k] <= 'Z')
    ensures Fold(s) == s
  {
  }

  /** A case-sensitive occurrence is also a case-insensitive one. */
  lemma FoldKeepsContains(s: string, t: string)
    requires Contains(s, t)
    ensures Contains(Fold(s), Fold(t))
  {
    var i :| 0 <= i <= |s| - |t| && OccursAt(s, t, i);
    assert Fold(s)[i..i + |t|] == Fold(t);
    assert OccursAt(Fold(s), Fold(t), i);
  }

  /** The number of matches of a global pattern for the literal `pat` in
      `text`: the scan runs left to right and resumes after each match, so
      matches never overlap. */
  function Occurrences(text: string, pat: string): (n: nat)
    requires pat != []
    ensures n * |pat| <= |text|
    decreases |text|
  {
    if |text| < |pat| then 0
    else if text[..|pat|] == pat then
      var k := Occurrences(text[|pat|..], pat);
      assert (1 + k) * |pat| == |pat| + k * |pat|;
      1 + k
    else Occurrences(text[1..], pat)
  }

  /** Matches do not overlap: "aaa" holds one match of "aa", not two. */
  lemma OccurrencesDoNotOverlap()
    ensures Occurrences("aaa", "aa") == 1
  {
    assert "aaa"[..2] == "aa" && "aaa"[2..] == "a";
    assert Occurrences("a", "aa") == 0;
  }

  /** A text that contains the pattern yields at least one match. */
  lemma {:induction false} ContainsHasOccurrence(text: string, pat: string)
    requires pat != [] && Contains(text, pat)
    ensures Occurrences(text, pat) >= 1
    decreases |text|
  {
    var i :| 0 <= i <= |text| - |pat| && OccursAt(text, pat, i);
    if text[..|pat|] != pat {
      assert text[0..|pat|] == text[..|pat|];
      assert i > 0;
      assert text[1..][i - 1..i - 1 + |pat|] == text[i..i + |pat|];
      assert OccursAt(text[1..], pat, i - 1);
      ContainsHasOccurrence(text[1..], pat);
    }
  }

  /** A text without the pattern yields no match. */
  lemma {:induction false} NoOccurrenceWithoutContains(text: string, pat: string)
    requires pat != [] && !Contains(text, pat)
    ensures Occurrences(text, pat) == 0
    decreases |text|
  {
    if |text| >= |pat| {
      assert text[0..|pat|] == text[..|pat|];
      assert !OccursAt(text, pat, 0);
      if Contains(text[1..], pat) {
        var i :| 0 <= i <= |text| - 1 - |pat| && OccursAt(text[1..], pat, i);
        assert text[1..][i..i + |pat|] == text[i + 1..i + 1 + |pat|];
        assert OccursAt(text, pat, i + 1);
      }
      NoOccurrenceWithoutContains(text[1..], pat);
    }
  }

  /** The order `Array.prototype.sort` puts strings in when given no
      comparator: lexicographic on characters, a proper prefix first. */
  predicate Below(a: string, b: string): (r: bool)
    ensures r ==> b != []
    ensures |a| < |b| && a == b[..|a|] ==> r
  {
    if a == [] then b != []
    else b != [] && (a[0] < b[0] || (a[0] == b[0] && Below(a[1..], b[1..])))
  }

  /** Two strings that agree up to index `i` and differ there are
      ordered by their characters at `i`. */
  lemma {:induction false} BelowAtFirstDifference(a: string, b: string, i: nat)
    requires i < |a| && i < |b| && a[..i] == b[..i] && a[i] != b[i]
    ensures Below(a, b) <==> a[i] < b[i]
  {
    if i > 0 {
      assert a[0] == a[..i][0] && b[0] == b[..i][0];
      assert a[1..][..i - 1] == a[..i][1..] && b[1..][..i - 1] == b[..i][1..];
      BelowAtFirstDifference(a[1..], b[1..], i - 1);
    }
  }

  lemma {:induction false} BelowIrreflexive(a: string)
    ensures !Below(a, a)
  {
    if a != [] { BelowIrreflexive(a[1..]); }
  }

  lemma {:induction false} BelowTransitive(a: string, b: string, c: string)
    requires Below(a, b) && Below(b, c)
    ensures Below(a, c)
  {
    if a != [] && a[0] == b[0] && b[0] == c[0] {
      BelowTransitive(a[1..], b[1..], c[1..]);
    }
  }

  /** Any two different strings are ordered one way or the other. */
  lemma {:induction false} BelowTotal(a: string, b: string)
    requires a != b
    ensures Below(a, b) || Below(b, a)
  {
    if a != [] && b != [] && a[0] == b[0] {
      assert a == [a[0]] + a[1..] && b == [b[0]] + b[1..];
      BelowTotal(a[1..], b[1..]);
    }
  }

  lemma {:induction false} BelowAsymmetric(a: string, b: string)
    requires Below(a, b)
    ensures !Below(b, a)
  {
    if a != [] && a[0] == b[0] {
      BelowAsymmetric(a[1..], b[1..]);
    }
  }

}
