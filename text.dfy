/** The Python string operations the service relies on (`strip`, `lower`,
    `upper`, `replace`, `in`, `startswith`, `str(int)`), restricted to the
    ASCII case mapping and ASCII digits. */
module Text {

  const NBSP: char := '\U{00A0}'

  /** `str.isspace()`, which is also what `\s` matches in a `str` pattern. */
  predicate IsSpace(c: char) {
    || c == ' ' || '\t' <= c <= '\r' || '\U{001C}' <= c <= '\U{001F}'
    || c == '\U{0085}' || c == NBSP || c == '\U{1680}'
    || '\U{2000}' <= c <= '\U{200A}' || c == '\U{2028}' || c == '\U{2029}'
    || c == '\U{202F}' || c == '\U{205F}' || c == '\U{3000}'
  }

  predicate IsDigit(c: char) { '0' <= c <= '9' }

  predicate IsUpper(c: char) { 'A' <= c <= 'Z' }

  predicate IsLower(c: char) { 'a' <= c <= 'z' }

  predicate AllSpace(s: string) {
    forall i | 0 <= i < |s| :: IsSpace(s[i])
  }

  predicate AllDigits(s: string) {
    forall i | 0 <= i < |s| :: IsDigit(s[i])
  }

  predicate NoOuterSpace(s: string) {
    s == [] || (!IsSpace(s[0]) && !IsSpace(s[|s| - 1]))
  }

  /** `core` is what is left of `pre + core + post` once outer whitespace is cut. */
  predicate Framed(pre: string, core: string, post: string) {
    AllSpace(pre) && AllSpace(post) && NoOuterSpace(core)
  }

  // ---------------------------------------------------------------------
  // strip
  // ---------------------------------------------------------------------

  /** The number of whitespace characters `s` starts with. */
  function LeadCount(s: string): (n: nat)
    ensures n <= |s|
    ensures forall i | 0 <= i < n :: IsSpace(s[i])
    ensures n == |s| || !IsSpace(s[n])
  {
    if |s| > 0 && IsSpace(s[0]) then 1 + LeadCount(s[1..]) else 0
  }

  /** The number of whitespace characters `s` ends with. */
  function TrailCount(s: string): (n: nat)
    ensures n <= |s|
    ensures forall i | |s| - n <= i < |s| :: IsSpace(s[i])
    ensures n == |s| || !IsSpace(s[|s| - n - 1])
  {
    if |s| > 0 && IsSpace(s[|s| - 1]) then 1 + TrailCount(s[..|s| - 1]) else 0
  }

  function Leading(s: string): string {
    s[..LeadCount(s)]
  }

  function Trailing(s: string): string {
    var t := s[LeadCount(s)..];
    t[|t| - TrailCount(t)..]
  }

  /** `str.strip()`: `s` without its leading and trailing whitespace. */
  function Strip(s: string): (r: string)
    ensures |r| <= |s|
    ensures forall c | c in r :: c in s
  {
    var t := s[LeadCount(s)..];
    t[..|t| - TrailCount(t)]
  }

  lemma SplitThree(s: string, a: nat, c: nat)
    requires a <= |s| && c <= |s| - a
    ensures s == s[..a] + s[a..][..c] + s[a..][c..]
  {
    var t := s[a..];
    assert t == t[..c] + t[c..];
    assert s == s[..a] + t;
  }

  lemma StripJoins(s: string)
    ensures s == Leading(s) + Strip(s) + Trailing(s)
  {
    var a := LeadCount(s);
    var t := s[a..];
    SplitThree(s, a, |t| - TrailCount(t));
  }

  lemma LeadingSpace(s: string)
    ensures AllSpace(Leading(s))
  {
  }

  lemma TrailingSpace(s: string)
    ensures AllSpace(Trailing(s))
  {
    var t := s[LeadCount(s)..];
    var b := TrailCount(t);
    var post := t[|t| - b..];
    forall i | 0 <= i < |post|
      ensures IsSpace(post[i])
    {
      assert post[i] == t[|t| - b + i];
    }
  }

  lemma StripCore(s: string)
    ensures NoOuterSpace(Strip(s))
  {
    var a := LeadCount(s);
    var t := s[a..];
    var b := TrailCount(t);
    var r := t[..|t| - b];
    if r != [] {
      assert r[0] == t[0] == s[a];
      assert r[|r| - 1] == t[|t| - b - 1];
    }
  }

  /** `Strip` cuts exactly a whitespace frame around a core that has none. */
  lemma StripFrames(s: string)
    ensures s == Leading(s) + Strip(s) + Trailing(s)
    ensures Framed(Leading(s), Strip(s), Trailing(s))
  {
    StripJoins(s);
    LeadingSpace(s);
    TrailingSpace(s);
    StripCore(s);
  }

  /** In a framed string the core starts at the first non-space character. */
  lemma FrameStart(pre: string, core: string, post: string)
    requires Framed(pre, core, post) && core != []
    ensures forall i | 0 <= i < |pre| :: IsSpace((pre + core + post)[i])
    ensures !IsSpace((pre + core + post)[|pre|])
    ensures !IsSpace((pre + core + post)[|pre| + |core| - 1])
    ensures forall i | |pre| + |core| <= i < |pre + core + post| :: IsSpace((pre + core + post)[i])
  {
  }

  /** A framed string with an empty core is all whitespace. */
  lemma FrameEmpty(pre: string, post: string)
    requires AllSpace(pre) && AllSpace(post)
    ensures AllSpace(pre + [] + post)
  {
  }

  /** A string has one core only: two whitespace frames of it cut the same core. */
  lemma FrameUnique(pre: string, core: string, post: string,
                    pre': string, core': string, post': string)
    requires Framed(pre, core, post) && Framed(pre', core', post')
    requires pre + core + post == pre' + core' + post'
    ensures core == core'
  {
    var s := pre + core + post;
    if core != [] {
      FrameStart(pre, core, post);
      if core' == [] {
        FrameEmpty(pre', post');
        assert false;
      }
      FrameStart(pre', core', post');
      assert |pre| == |pre'|;
      assert |pre| + |core| == |pre'| + |core'|;
      assert core == s[|pre|..|pre| + |core|];
      assert core' == s[|pre'|..|pre'| + |core'|];
    } else if core' != [] {
      FrameStart(pre', core', post');
      FrameEmpty(pre, post);
      assert false;
    }
  }

  /** What `strip` gives back for any whitespace frame around a core. */
  lemma StripOfFramed(pre: string, core: string, post: string)
    requires Framed(pre, core, post)
    ensures Strip(pre + core + post) == core
  {
    var s := pre + core + post;
    StripFrames(s);
    FrameUnique(Leading(s), Strip(s), Trailing(s), pre, core, post);
  }

  lemma AllSpaceConcat(a: string, b: string)
    requires AllSpace(a) && AllSpace(b)
    ensures AllSpace(a + b)
  {
  }

  lemma Regroup(w1: string, pre: string, core: string, post: string, w2: string)
    ensures w1 + (pre + core + post) + w2 == (w1 + pre) + core + (post + w2)
  {
  }

  /** Whitespace added around a string does not survive `strip`. */
  lemma StripPadded(w1: string, s: string, w2: string)
    requires AllSpace(w1) && AllSpace(w2)
    ensures Strip(w1 + s + w2) == Strip(s)
  {
    StripFrames(s);
    var pre, core, post := Leading(s), Strip(s), Trailing(s);
    AllSpaceConcat(w1, pre);
    AllSpaceConcat(post, w2);
    Regroup(w1, pre, core, post, w2);
    StripOfFramed(w1 + pre, core, post + w2);
  }

  lemma StripNoOuterSpace(s: string)
    ensures NoOuterSpace(Strip(s))
  {
    StripFrames(s);
  }

  /** A string without outer whitespace is its own `strip`. */
  lemma StripUnframed(s: string)
    requires NoOuterSpace(s)
    ensures Strip(s) == s
  {
    assert [] + s + [] == s;
    StripOfFramed([], s, []);
  }

  lemma StripIdempotent(s: string)
    ensures Strip(Strip(s)) == Strip(s)
  {
    StripNoOuterSpace(s);
    StripUnframed(Strip(s));
  }

  // ---------------------------------------------------------------------
  // Character maps and removals
  // ---------------------------------------------------------------------

  function LowerChar(c: char): char {
    if IsUpper(c) then (c as int + 32) as char else c
  }

  function UpperChar(c: char): char {
    if IsLower(c) then (c as int - 32) as char else c
  }

  /** `str.lower()` on the ASCII letters. */
  function Lower(s: string): (r: string)
    ensures |r| == |s|
    ensures forall i | 0 <= i < |s| :: r[i] == LowerChar(s[i])
  {
    seq(|s|, i requires 0 <= i < |s| => LowerChar(s[i]))
  }

  /** `str.upper()` on the ASCII letters. */
  function Upper(s: string): (r: string)
    ensures |r| == |s|
    ensures forall i | 0 <= i < |s| :: r[i] == UpperChar(s[i])
  {
    seq(|s|, i requires 0 <= i < |s| => UpperChar(s[i]))
  }

  /** `s.replace(a, b)` for single characters `a` and `b`. */
  function ReplaceChar(s: string, a: char, b: char): (r: string)
    ensures |r| == |s|
    ensures forall i | 0 <= i < |s| :: r[i] == (if s[i] == a then b else s[i])
  {
    seq(|s|, i requires 0 <= i < |s| => if s[i] == a then b else s[i])
  }

  /** `s` with every character of `cs` deleted, as `re.sub("[...]", "", s)`
      or a chain of one-character `replace(c, "")` calls does. */
  function Without(s: string, cs: set<char>): (r: string)
    ensures |r| <= |s|
    ensures forall i | 0 <= i < |r| :: r[i] !in cs
    ensures forall c | c in r :: c in s
  {
    if s == [] then [] else (if s[0] in cs then [] else [s[0]]) + Without(s[1..], cs)
  }

  lemma {:induction false} WithoutConcat(a: string, b: string, cs: set<char>)
    ensures Without(a + b, cs) == Without(a, cs) + Without(b, cs)
  {
    if a == [] {
      assert a + b == b;
    } else {
      assert (a + b)[1..] == a[1..] + b;
      WithoutConcat(a[1..], b, cs);
    }
  }

  /** Deleting characters that do not occur changes nothing. */
  lemma {:induction false} WithoutAbsent(s: string, cs: set<char>)
    requires forall c | c in cs :: c !in s
    ensures Without(s, cs) == s
  {
    if s != [] {
      assert s == [s[0]] + s[1..];
      WithoutAbsent(s[1..], cs);
    }
  }

  lemma {:induction false} WithoutAllSpace(s: string, cs: set<char>)
    requires AllSpace(s)
    ensures AllSpace(Without(s, cs))
  {
    if s != [] {
      WithoutAllSpace(s[1..], cs);
    }
  }

  lemma LowerConcat(a: string, b: string)
    ensures Lower(a + b) == Lower(a) + Lower(b)
  {
  }

  lemma UpperConcat(a: string, b: string)
    ensures Upper(a + b) == Upper(a) + Upper(b)
  {
  }

  /** Upper-casing twice is upper-casing once. */
  lemma UpperIdempotent(s: string)
    ensures Upper(Upper(s)) == Upper(s)
  {
  }

  lemma ReplaceCharConcat(s: string, t: string, a: char, b: char)
    ensures ReplaceChar(s + t, a, b) == ReplaceChar(s, a, b) + ReplaceChar(t, a, b)
  {
  }

  /** Lower-casing a string without ASCII capitals changes nothing. */
  lemma LowerNoCapitals(s: string)
    requires forall c | c in s :: !IsUpper(c)
    ensures Lower(s) == s
  {
    forall i | 0 <= i < |s| ensures Lower(s)[i] == s[i] {
      assert s[i] in s;
    }
  }

  lemma ReplaceCharAbsent(s: string, a: char, b: char)
    requires a !in s
    ensures ReplaceChar(s, a, b) == s
  {
    forall i | 0 <= i < |s| ensures ReplaceChar(s, a, b)[i] == s[i] {
      assert s[i] in s;
    }
  }

  // ---------------------------------------------------------------------
  // Substrings
  // ---------------------------------------------------------------------

  predicate StartsWith(s: string, p: string) {
    |p| <= |s| && s[..|p|] == p
  }

  predicate OccursAt(s: string, p: string, i: nat) {
    i + |p| <= |s| && s[i..i + |p|] == p
  }

  /** Python's `p in s`. */
  predicate Contains(s: string, p: string) {
    exists i: nat | i <= |s| :: OccursAt(s, p, i)
  }

  /** `s.replace(pat, rep)`: every occurrence, scanning left to right without overlaps. */
  function ReplaceAll(s: string, pat: string, rep: string): (r: string)
    requires pat != []
    ensures forall c | c in r :: c in s || c in rep
    decreases |s|
  {
    if |s| < |pat| then s
    else if s[..|pat|] == pat then rep + ReplaceAll(s[|pat|..], pat, rep)
    else [s[0]] + ReplaceAll(s[1..], pat, rep)
  }

  /** A pattern whose first character does not occur is never replaced. */
  lemma {:induction false} ReplaceAllAbsent(s: string, pat: string, rep: string)
    requires pat != [] && pat[0] !in s
    ensures ReplaceAll(s, pat, rep) == s
    decreases |s|
  {
    if |s| >= |pat| {
      assert s[0] in s;
      assert s[..|pat|][0] == s[0];
      assert s == [s[0]] + s[1..];
      ReplaceAllAbsent(s[1..], pat, rep);
    }
  }

  /** `s.replace(pat, rep, 1)`: the first occurrence only. */
  function ReplaceFirst(s: string, pat: string, rep: string): string
    requires pat != []
    decreases |s|
  {
    if |s| < |pat| then s
    else if s[..|pat|] == pat then rep + s[|pat|..]
    else [s[0]] + ReplaceFirst(s[1..], pat, rep)
  }

  // ---------------------------------------------------------------------
  // Decimal digits and str(int)
  // ---------------------------------------------------------------------

  function DigitValue(c: char): nat
    requires IsDigit(c)
  {
    c as int - '0' as int
  }

  function DigitChar(d: nat): (c: char)
    requires d < 10
    ensures IsDigit(c) && DigitValue(c) == d
  {
    ('0' as int + d) as char
  }

  /** The number a run of ASCII digits denotes (`int(s)`). */
  function DigitsValue(s: string): nat
    requires AllDigits(s)
  {
    if s == [] then 0 else DigitsValue(s[..|s| - 1]) * 10 + DigitValue(s[|s| - 1])
  }

  /** `str(n)` for a non-negative integer. */
  function NatToString(n: nat): (r: string)
    ensures AllDigits(r) && r != []
    ensures |r| > 1 ==> r[0] != '0'
  {
    if n < 10 then [DigitChar(n)] else NatToString(n / 10) + [DigitChar(n % 10)]
  }

  /** `int(str(n)) == n`. */
  lemma {:induction false} NatToStringRoundTrip(n: nat)
    ensures DigitsValue(NatToString(n)) == n
  {
    if n >= 10 {
      var r := NatToString(n);
      assert r[..|r| - 1] == NatToString(n / 10);
      NatToStringRoundTrip(n / 10);
    }
  }

  // ---------------------------------------------------------------------
  // Lexicographic order (SQLite's BINARY collation on code points)
  // ---------------------------------------------------------------------

  predicate LexLess(a: string, b: string) {
    if a == [] then b != []
    else b != [] && (a[0] < b[0] || (a[0] == b[0] && LexLess(a[1..], b[1..])))
  }

  lemma {:induction false} LexIrreflexive(a: string)
    ensures !LexLess(a, a)
  {
    if a != [] {
      LexIrreflexive(a[1..]);
    }
  }

  lemma {:induction false} LexTransitive(a: string, b: string, c: string)
    requires LexLess(a, b) && LexLess(b, c)
    ensures LexLess(a, c)
  {
    if a != [] && b != [] && c != [] && a[0] == b[0] == c[0] {
      LexTransitive(a[1..], b[1..], c[1..]);
    }
  }

  lemma {:induction false} LexTotal(a: string, b: string)
    requires a != b
    ensures LexLess(a, b) || LexLess(b, a)
  {
    if a != [] && b != [] && a[0] == b[0] {
      assert a == [a[0]] + a[1..] && b == [b[0]] + b[1..];
      LexTotal(a[1..], b[1..]);
    }
  }
}
