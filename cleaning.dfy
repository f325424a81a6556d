/** The text helpers at the top of the ingestion service: the number cleaner,
    the safe division, the fiscal-year label test and the metric-name
    canonicaliser with its alias table. */
module Cleaning {
  import opened Wrappers
  import opened Text

  // ---------------------------------------------------------------------
  // clean_number
  // ---------------------------------------------------------------------

  /** The characters `re.sub(r"[₹,%]", "", value)` deletes. */
  const NoiseChars: set<char> := {'₹', ',', '%'}

  /** What `clean_number` tests against its pattern: NBSP turned into a space,
      ₹ , % deleted, every "Cr." and then every "Cr" deleted, the (by then
      absent) commas deleted again, outer whitespace stripped. */
  function CleanText(s: string): (r: string)
    ensures NoOuterSpace(r)
    ensures forall c | c in r :: c != NBSP && c !in NoiseChars
  {
    var t := ReplaceChar(s, NBSP, ' ');
    var u := Without(t, NoiseChars);
    var v := ReplaceAll(ReplaceAll(u, "Cr.", ""), "Cr", "");
    StripCore(Without(v, {','}));
    assert forall c | c in t :: c != NBSP by {
      forall c | c in t ensures c != NBSP {
        var i :| 0 <= i < |t| && t[i] == c;
      }
    }
    Strip(Without(v, {','}))
  }

  /** Index of the first occurrence of `c`, or `|s|` when there is none. */
  function FirstIndexOf(s: string, c: char): (k: nat)
    ensures k <= |s|
    ensures k < |s| ==> s[k] == c
    ensures forall i | 0 <= i < k :: s[i] != c
  {
    if s == [] then 0 else if s[0] == c then 0 else 1 + FirstIndexOf(s[1..], c)
  }

  /** `\d+(\.\d+)?` matching the whole of `u`. */
  predicate IsUnsignedDecimal(u: string) {
    var k := FirstIndexOf(u, '.');
    if k == |u| then u != [] && AllDigits(u)
    else 0 < k < |u| - 1 && AllDigits(u[..k]) && AllDigits(u[k + 1..])
  }

  function Unsigned(t: string): string {
    if |t| > 0 && t[0] == '-' then t[1..] else t
  }

  /** `re.match(r"^-?\d+(\.\d+)?$", t)` on a stripped `t` (ASCII digits). */
  predicate IsDecimal(t: string) {
    IsUnsignedDecimal(Unsigned(t))
  }

  function Pow10(n: nat): (p: nat)
    ensures p >= 1
  {
    if n == 0 then 1 else 10 * Pow10(n - 1)
  }

  function UnsignedValue(u: string): real
    requires IsUnsignedDecimal(u)
  {
    var k := FirstIndexOf(u, '.');
    if k == |u| then DigitsValue(u) as real
    else DigitsValue(u[..k]) as real + DigitsValue(u[k + 1..]) as real / Pow10(|u| - k - 1) as real
  }

  /** `float(t)` for a decimal text (exactly, without binary rounding). */
  function DecimalValue(t: string): real
    requires IsDecimal(t)
  {
    if |t| > 0 && t[0] == '-' then -UnsignedValue(t[1..]) else UnsignedValue(t)
  }

  /** `clean_number`: `None` stays `None`; otherwise the cleaned text is read
      as a number when it is a plain signed decimal, and anything else is
      `None` (it never raises). */
  function CleanNumber(value: Option<string>): (r: Option<real>)
    ensures value.None? ==> r.None?
    ensures value.Some? ==> (r.Some? <==> IsDecimal(CleanText(value.value)))
    ensures r.Some? ==> r.value == DecimalValue(CleanText(value.value))
  {
    match value
    case None => None
    case Some(s) =>
      var t := CleanText(s);
      if IsDecimal(t) then Some(DecimalValue(t)) else None
  }

  /** Every character of a decimal text is a digit, a minus sign or a point. */
  lemma DecimalChars(t: string)
    requires IsDecimal(t)
    ensures forall c | c in t :: IsDigit(c) || c == '-' || c == '.'
  {
    var u := Unsigned(t);
    var k := FirstIndexOf(u, '.');
    forall c | c in t ensures IsDigit(c) || c == '-' || c == '.' {
      var i :| 0 <= i < |t| && t[i] == c;
      if |t| > 0 && t[0] == '-' && i > 0 {
        assert u[i - 1] == c;
        if k < |u| && i - 1 > k {
          assert u[k + 1..][i - 2 - k] == c;
        }
      } else if !(|t| > 0 && t[0] == '-') {
        assert u[i] == c;
        if k < |u| && i > k {
          assert u[k + 1..][i - 1 - k] == c;
        }
      }
    }
  }

  /** A text without a character the cleaning deletes or replaces, and
      without outer whitespace, is left as it is. */
  lemma CleanTextUntouched(t: string)
    requires NBSP !in t && 'C' !in t && ',' !in t
    requires forall c | c in NoiseChars :: c !in t
    requires NoOuterSpace(t)
    ensures CleanText(t) == t
  {
    ReplaceCharAbsent(t, NBSP, ' ');
    WithoutAbsent(t, NoiseChars);
    ReplaceAllAbsent(t, "Cr.", "");
    ReplaceAllAbsent(t, "Cr", "");
    WithoutAbsent(t, {','});
    CleanTextSteps(t, t, t, t, t, t);
    StripUnframed(t);
  }

  /** A plain decimal text is left as it is by the cleaning. */
  lemma CleanTextOfDecimal(t: string)
    requires IsDecimal(t)
    ensures CleanText(t) == t
  {
    DecimalUntouched(t);
    CleanTextUntouched(t);
  }

  /** Every plain signed decimal is read back as the number it denotes. */
  lemma CleanNumberReadsDecimal(t: string)
    requires IsDecimal(t)
    ensures CleanNumber(Some(t)) == Some(DecimalValue(t))
  {
    CleanTextOfDecimal(t);
  }

  lemma DigitsAreDecimal(s: string)
    requires s != [] && AllDigits(s)
    ensures IsDecimal(s) && DecimalValue(s) == DigitsValue(s) as real
  {
    assert s[0] != '-';
    assert Unsigned(s) == s;
    assert forall i | 0 <= i < |s| :: s[i] != '.';
    assert FirstIndexOf(s, '.') == |s|;
  }

  lemma NegatedDigitsAreDecimal(s: string)
    requires s != [] && AllDigits(s)
    ensures IsDecimal("-" + s) && DecimalValue("-" + s) == -(DigitsValue(s) as real)
  {
    DigitsAreDecimal(s);
    var m := "-" + s;
    assert m[1..] == s;
    assert Unsigned(m) == s;
  }

  /** `clean_number(str(n)) == float(n)` for every non-negative integer. */
  lemma CleanNumberOfInteger(n: nat)
    ensures CleanNumber(Some(NatToString(n))) == Some(n as real)
  {
    var s := NatToString(n);
    NatToStringRoundTrip(n);
    DigitsAreDecimal(s);
    CleanNumberReadsDecimal(s);
  }

  lemma NegatedIntegerIsDecimal(n: nat)
    ensures IsDecimal("-" + NatToString(n))
    ensures DecimalValue("-" + NatToString(n)) == -(n as real)
  {
    NatToStringRoundTrip(n);
    NegatedDigitsAreDecimal(NatToString(n));
  }

  /** `clean_number(str(-n)) == float(-n)`. */
  lemma CleanNumberOfNegativeInteger(n: nat)
    ensures CleanNumber(Some("-" + NatToString(n))) == Some(-(n as real))
  {
    NegatedIntegerIsDecimal(n);
    ReadsAs("-" + NatToString(n), -(n as real));
  }

  lemma ReadsAs(t: string, x: real)
    requires IsDecimal(t) && DecimalValue(t) == x
    ensures CleanNumber(Some(t)) == Some(x)
  {
    CleanNumberReadsDecimal(t);
  }

  /** The characters of a decimal text are none of those the cleaning touches. */
  lemma DecimalUntouched(t: string)
    requires IsDecimal(t)
    ensures NBSP !in t && 'C' !in t && ',' !in t
    ensures forall c | c in NoiseChars :: c !in t
    ensures t != [] && NoOuterSpace(t)
  {
    DecimalChars(t);
    assert t != [] by {
      assert Unsigned(t) != [];
    }
    assert t[0] in t && t[|t| - 1] in t;
  }

  /** `CleanText` step by step. */
  lemma CleanTextSteps(s: string, a: string, b: string, c: string, d: string, e: string)
    requires ReplaceChar(s, NBSP, ' ') == a && Without(a, NoiseChars) == b
    requires ReplaceAll(b, "Cr.", "") == c && ReplaceAll(c, "Cr", "") == d
    requires Without(d, {','}) == e
    ensures CleanText(s) == Strip(e)
  {
  }

  lemma CurrencyNbsp(t: string)
    requires NBSP !in t
    ensures ReplaceChar("₹" + t + " Cr.", NBSP, ' ') == "₹" + t + " Cr."
  {
    ReplaceCharConcat("₹" + t, " Cr.", NBSP, ' ');
    ReplaceCharConcat("₹", t, NBSP, ' ');
    ReplaceCharAbsent(t, NBSP, ' ');
  }

  lemma CurrencyNoise(t: string)
    requires forall c | c in NoiseChars :: c !in t
    ensures Without("₹" + t + " Cr.", NoiseChars) == t + " Cr."
  {
    var a := "₹" + t;
    WithoutConcat(a, " Cr.", NoiseChars);
    WithoutConcat("₹", t, NoiseChars);
    assert Without("₹", NoiseChars) == [] by {
      assert "₹"[0] in NoiseChars && "₹"[1..] == [];
    }
    WithoutAbsent(t, NoiseChars);
    WithoutAbsent(" Cr.", NoiseChars);
    assert Without(a, NoiseChars) == t;
  }

  lemma CurrencyUnit(t: string)
    requires 'C' !in t && ',' !in t
    ensures ReplaceAll(t + " Cr.", "Cr.", "") == t + " "
    ensures ReplaceAll(t + " ", "Cr", "") == t + " "
    ensures Without(t + " ", {','}) == t + " "
  {
    assert t + " " + "Cr." == t + " Cr.";
    ReplaceAllAfter(t, " ", "Cr.");
    assert 'C' !in t + " ";
    ReplaceAllAbsent(t + " ", "Cr", "");
    WithoutAbsent(t + " ", {','});
  }

  lemma StripTrailingSpace(t: string)
    requires NoOuterSpace(t)
    ensures Strip(t + " ") == t
  {
    assert t + " " == [] + t + " ";
    StripOfFramed([], t, " ");
  }

  /** The cleaning of a rupee amount in crores: the sign and unit go. */
  lemma CleanTextOfCurrency(t: string)
    requires NBSP !in t && 'C' !in t && ',' !in t
    requires forall c | c in NoiseChars :: c !in t
    requires NoOuterSpace(t)
    ensures CleanText("₹" + t + " Cr.") == t
  {
    var s := "₹" + t + " Cr.";
    CurrencyNbsp(t);
    CurrencyNoise(t);
    CurrencyUnit(t);
    StripTrailingSpace(t);
    CleanTextSteps(s, s, t + " Cr.", t + " ", t + " ", t + " ");
  }

  /** The cleaning of a percentage: the sign goes. */
  lemma CleanTextOfPercent(t: string)
    requires NBSP !in t && 'C' !in t && ',' !in t
    requires forall c | c in NoiseChars :: c !in t
    requires NoOuterSpace(t)
    ensures CleanText(t + "%") == t
  {
    var p := t + "%";
    assert ReplaceChar(p, NBSP, ' ') == p by {
      ReplaceCharConcat(t, "%", NBSP, ' ');
      ReplaceCharAbsent(t, NBSP, ' ');
    }
    assert Without(p, NoiseChars) == t by {
      WithoutConcat(t, "%", NoiseChars);
      WithoutAbsent(t, NoiseChars);
    }
    ReplaceAllAbsent(t, "Cr.", "");
    ReplaceAllAbsent(t, "Cr", "");
    WithoutAbsent(t, {','});
    StripUnframed(t);
  }

  /** A rupee sign before and a crore unit after a decimal do not change
      what it is read as. */
  lemma CleanNumberIgnoresCurrency(t: string)
    requires IsDecimal(t)
    ensures CleanNumber(Some("₹" + t + " Cr.")) == Some(DecimalValue(t))
  {
    DecimalUntouched(t);
    CleanTextOfCurrency(t);
  }

  /** A percent sign after a decimal does not change what it is read as. */
  lemma CleanNumberIgnoresPercent(t: string)
    requires IsDecimal(t)
    ensures CleanNumber(Some(t + "%")) == Some(DecimalValue(t))
  {
    DecimalUntouched(t);
    CleanTextOfPercent(t);
  }

  /** Deleting the pattern "Cr." from `t + " Cr."`, where `t` has no 'C'. */
  lemma {:induction false} ReplaceAllAfter(t: string, w: string, pat: string)
    requires pat == "Cr." && w == " "
    requires 'C' !in t
    ensures ReplaceAll(t + w + pat, pat, "") == t + w
    decreases |t|
  {
    if t == [] {
      var s := w + pat;
      assert t + w + pat == s;
      assert s[..3] != pat;
      assert s[1..] == pat;
      assert pat[..3] == pat && pat[3..] == [];
      assert ReplaceAll(pat, pat, "") == [];
      assert ReplaceAll(s, pat, "") == w;
    } else {
      var s := t + w + pat;
      assert s[0] == t[0];
      assert t[0] in t;
      assert s[..|pat|][0] == t[0];
      assert s[1..] == t[1..] + w + pat;
      ReplaceAllAfter(t[1..], w, pat);
      assert t == [t[0]] + t[1..];
    }
  }

  /** A character is kept by `ReplaceAll` when it is not in the pattern. */
  lemma {:induction false} ReplaceAllKeeps(s: string, pat: string, c: char)
    requires pat != [] && c in s && c !in pat
    ensures c in ReplaceAll(s, pat, "")
    decreases |s|
  {
    if |s| >= |pat| {
      var i :| 0 <= i < |s| && s[i] == c;
      if s[..|pat|] == pat {
        assert i >= |pat|;
        assert s[|pat|..][i - |pat|] == c;
        ReplaceAllKeeps(s[|pat|..], pat, c);
      } else if i == 0 {
        assert ReplaceAll(s, pat, "")[0] == c;
      } else {
        assert s[1..][i - 1] == c;
        ReplaceAllKeeps(s[1..], pat, c);
      }
    }
  }

  lemma {:induction false} WithoutKeeps(s: string, cs: set<char>, c: char)
    requires c in s && c !in cs
    ensures c in Without(s, cs)
  {
    if s[0] != c {
      var i :| 0 <= i < |s| && s[i] == c;
      assert s[1..][i - 1] == c;
      WithoutKeeps(s[1..], cs, c);
    }
  }

  lemma StripKeeps(s: string, c: char)
    requires c in s && !IsSpace(c)
    ensures c in Strip(s)
  {
    var a := LeadCount(s);
    var t := s[a..];
    var b := TrailCount(t);
    var i :| 0 <= i < |s| && s[i] == c;
    assert i >= a;
    assert t[i - a] == c;
    assert i - a < |t| - b;
    assert Strip(s)[i - a] == c;
  }

  /** Any letter other than 'C' and 'r' survives the cleaning, so a text that
      holds one (such as "N/A") is never read as a number. */
  lemma CleanNumberRejectsLetters(s: string, c: char)
    requires c in s && (IsUpper(c) || IsLower(c)) && c != 'C' && c != 'r'
    ensures CleanNumber(Some(s)) == None
  {
    CleanTextKeeps(s, c);
    if IsDecimal(CleanText(s)) {
      DecimalChars(CleanText(s));
    }
  }

  /** A character that no step of the cleaning deletes or replaces survives it. */
  lemma CleanTextKeeps(s: string, c: char)
    requires c in s && c != NBSP && c !in NoiseChars && c != 'C' && c != 'r' && c != '.' && c != ','
    requires !IsSpace(c)
    ensures c in CleanText(s)
  {
    var t := ReplaceChar(s, NBSP, ' ');
    var i :| 0 <= i < |s| && s[i] == c;
    assert t[i] == c;
    var u := Without(t, NoiseChars);
    WithoutKeeps(t, NoiseChars, c);
    var v1 := ReplaceAll(u, "Cr.", "");
    ReplaceAllKeeps(u, "Cr.", c);
    var v := ReplaceAll(v1, "Cr", "");
    ReplaceAllKeeps(v1, "Cr", c);
    WithoutKeeps(v, {','}, c);
    StripKeeps(Without(v, {','}), c);
  }

  /** "N/A", the usual placeholder on the source pages, reads as no value. */
  lemma CleanNumberOfPlaceholder()
    ensures CleanNumber(Some("N/A")) == None
  {
    CleanNumberRejectsLetters("N/A", 'N');
  }

  // ---------------------------------------------------------------------
  // safe_div
  // ---------------------------------------------------------------------

  /** `safe_div`: the quotient when both operands are present and the
      divisor is not zero (the rounding to 2 places is not modelled). */
  function SafeDiv(n: Option<real>, d: Option<real>): (r: Option<real>)
    ensures r.Some? <==> n.Some? && d.Some? && d.value != 0.0
    ensures r.Some? ==> r.value * d.value == n.value
  {
    if n.Some? && d.Some? && d.value != 0.0 then Some(n.value / d.value) else None
  }

  // ---------------------------------------------------------------------
  // is_fiscal_year
  // ---------------------------------------------------------------------

  /** `re.match(r"^Mar\s\d{4}$", label)`: "Mar", one whitespace character and
      four digits; `$` also accepts one final newline. */
  predicate IsFiscalYear(col: string) {
    && (|col| == 8 || (|col| == 9 && col[8] == '\n'))
    && col[..3] == "Mar" && IsSpace(col[3]) && AllDigits(col[4..8])
  }

  /** `int(label.split()[-1])`: the four digits after the month. */
  function YearNumber(col: string): nat
    requires IsFiscalYear(col)
  {
    DigitsValue(col[4..8])
  }

  function FourDigits(y: nat): (s: string)
    requires y < 10000
    ensures |s| == 4 && AllDigits(s)
  {
    [DigitChar(y / 1000), DigitChar(y / 100 % 10), DigitChar(y / 10 % 10), DigitChar(y % 10)]
  }

  lemma DecimalShift(y: nat, k: nat)
    requires k == 1 || k == 10 || k == 100
    ensures y / k == (y / (k * 10)) * 10 + (y / k) % 10
  {
  }

  lemma FourDigitsValue(y: nat)
    requires y < 10000
    ensures DigitsValue(FourDigits(y)) == y
  {
    var d := FourDigits(y);
    DecimalShift(y, 100);
    DecimalShift(y, 10);
    DecimalShift(y, 1);
    assert d[..1] == [d[0]] && d[..2][..1] == d[..1] && d[..3][..2] == d[..2] && d[..4] == d;
    assert DigitsValue(d[..1]) == y / 1000;
    assert DigitsValue(d[..2]) == y / 100;
    assert DigitsValue(d[..3]) == y / 10;
  }

  /** Every "Mar YYYY" label is a fiscal year, and its year number is YYYY. */
  lemma FiscalYearLabel(y: nat)
    requires y < 10000
    ensures IsFiscalYear("Mar " + FourDigits(y))
    ensures YearNumber("Mar " + FourDigits(y)) == y
  {
    var d := FourDigits(y);
    var l := "Mar " + d;
    assert l[..3] == "Mar";
    assert l[4..8] == d;
    FourDigitsValue(y);
  }

  /** Conversely, a fiscal-year label is "Mar", its whitespace character
      and the four digits of its year number, with at most a newline after. */
  lemma FiscalYearShape(col: string)
    requires IsFiscalYear(col)
    ensures YearNumber(col) < 10000
    ensures col[..8] == "Mar" + [col[3]] + FourDigits(YearNumber(col))
  {
    var d := col[4..8];
    var a, b, c, e := DigitValue(d[0]), DigitValue(d[1]), DigitValue(d[2]), DigitValue(d[3]);
    assert d[..1] == [d[0]] && d[..1][..0] == [];
    assert d[..2][..1] == d[..1] && d[..2][1] == d[1];
    assert d[..3][..2] == d[..2] && d[..3][2] == d[2];
    assert d[..4] == d && d[..3] == d[..|d| - 1];
    var y := ((a * 10 + b) * 10 + c) * 10 + e;
    assert DigitsValue(d[..1]) == a;
    assert DigitsValue(d[..2]) == a * 10 + b;
    assert DigitsValue(d[..3]) == (a * 10 + b) * 10 + c;
    assert YearNumber(col) == y;
    DigitsOfFour(a, b, c, e);
    var f := FourDigits(y);
    assert f[0] == d[0] && f[1] == d[1] && f[2] == d[2] && f[3] == d[3];
    assert col[..8] == col[..3] + [col[3]] + d;
  }

  lemma DigitsOfFour(a: nat, b: nat, c: nat, e: nat)
    requires a < 10 && b < 10 && c < 10 && e < 10
    ensures var y := ((a * 10 + b) * 10 + c) * 10 + e;
      y < 10000 && y / 1000 == a && y / 100 % 10 == b && y / 10 % 10 == c && y % 10 == e
  {
    var y := ((a * 10 + b) * 10 + c) * 10 + e;
    assert y == a * 1000 + b * 100 + c * 10 + e;
    assert y / 10 == a * 100 + b * 10 + c;
    assert y / 100 == a * 10 + b;
  }

  // ---------------------------------------------------------------------
  // normalize_label and normalize_metric
  // ---------------------------------------------------------------------

  /** The characters `normalize_label` deletes with its four `replace` calls. */
  const LabelPunctuation: set<char> := {'+', '%', '(', ')'}

  /** `normalize_label`: lower-cased, NBSP as a space, + % ( ) deleted, stripped. */
  function NormalizeLabel(text: string): (r: string)
    ensures NoOuterSpace(r)
    ensures forall c | c in r :: c !in LabelPunctuation && c != NBSP && !IsUpper(c)
  {
    if text == [] then []
    else
      var l := Lower(text);
      var t := ReplaceChar(l, NBSP, ' ');
      var u := Without(t, LabelPunctuation);
      StripCore(u);
      assert forall c | c in t :: c != NBSP && !IsUpper(c) by {
        forall c | c in t ensures c != NBSP && !IsUpper(c) {
          var i :| 0 <= i < |t| && t[i] == c;
        }
      }
      Strip(u)
  }

  /** The fixed alias table, keyed by normalised label. */
  const MetricAliases: map<string, string> := map[
    "sales" := "Sales +",
    "expenses" := "Expenses +",
    "net profit" := "Net Profit +",
    "operating profit" := "Operating Profit",
    "opm" := "OPM %",
    "eps in rs" := "EPS in Rs",
    "borrowings" := "Borrowings +",
    "equity capital" := "Equity Capital",
    "reserves" := "Reserves"
  ]

  /** `normalize_metric`: the alias target of the label's key, else the label stripped. */
  function NormalizeMetric(metric: string): (r: string)
    ensures NormalizeLabel(metric) in MetricAliases ==> r == MetricAliases[NormalizeLabel(metric)]
    ensures NormalizeLabel(metric) !in MetricAliases ==> r == Strip(metric)
  {
    var key := NormalizeLabel(metric);
    if key in MetricAliases then MetricAliases[key] else Strip(metric)
  }

  /** The per-character part of `normalize_label`, before the strip. */
  function LabelChars(text: string): string {
    Without(ReplaceChar(Lower(text), NBSP, ' '), LabelPunctuation)
  }

  lemma LabelCharsConcat(a: string, b: string)
    ensures LabelChars(a + b) == LabelChars(a) + LabelChars(b)
  {
    LowerConcat(a, b);
    ReplaceCharConcat(Lower(a), Lower(b), NBSP, ' ');
    WithoutConcat(ReplaceChar(Lower(a), NBSP, ' '), ReplaceChar(Lower(b), NBSP, ' '), LabelPunctuation);
  }

  lemma LabelCharsOfSpace(w: string)
    requires AllSpace(w)
    ensures AllSpace(LabelChars(w))
  {
    var t := ReplaceChar(Lower(w), NBSP, ' ');
    assert AllSpace(t);
    WithoutAllSpace(t, LabelPunctuation);
  }

  /** Outer whitespace does not reach the alias key. */
  lemma NormalizeLabelOfStripped(metric: string)
    ensures NormalizeLabel(Strip(metric)) == NormalizeLabel(metric)
  {
    StripFrames(metric);
    var pre, core, post := Leading(metric), Strip(metric), Trailing(metric);
    LabelCharsConcat(pre + core, post);
    LabelCharsConcat(pre, core);
    LabelCharsOfSpace(pre);
    LabelCharsOfSpace(post);
    StripPadded(LabelChars(pre), LabelChars(core), LabelChars(post));
    if core == [] {
      assert Strip(LabelChars(core)) == [];
      assert Strip([]) == [] by { StripUnframed([]); }
    }
  }

  lemma TailKey(tail: string)
    requires tail == [] || tail == " +" || tail == " %"
    ensures AllSpace(Without(tail, LabelPunctuation))
  {
    if tail != [] {
      assert tail[1..][1..] == [];
    }
  }

  /** The key of a label that is already lower-case and free of NBSP, made
      of a core without + % ( ) and a tail that is empty, " +" or " %". */
  lemma LabelOfCanonical(target: string, lowered: string, key: string, tail: string)
    requires Lower(target) == lowered && lowered == key + tail
    requires NBSP !in lowered
    requires forall c | c in LabelPunctuation :: c !in key
    requires NoOuterSpace(key) && key != []
    requires tail == [] || tail == " +" || tail == " %"
    ensures NormalizeLabel(target) == key
  {
    assert target != [];
    ReplaceCharAbsent(lowered, NBSP, ' ');
    var w := Without(tail, LabelPunctuation);
    assert Without(lowered, LabelPunctuation) == key + w by {
      WithoutConcat(key, tail, LabelPunctuation);
      WithoutAbsent(key, LabelPunctuation);
    }
    TailKey(tail);
    assert key + w == [] + key + w;
    StripOfFramed([], key, w);
  }

  /** The alias target of `k` is a fixed point of the canonicalisation;
      one lemma per key keeps each literal computation in its own proof. */
  lemma SalesFixed(k: string)
    requires k == "sales"
    ensures NormalizeLabel(MetricAliases[k]) == k
  {
    LabelOfCanonical(MetricAliases[k], "sales +", k, " +");
  }

  lemma ExpensesFixed(k: string)
    requires k == "expenses"
    ensures NormalizeLabel(MetricAliases[k]) == k
  {
    LabelOfCanonical(MetricAliases[k], "expenses +", k, " +");
  }

  lemma NetProfitFixed(k: string)
    requires k == "net profit"
    ensures NormalizeLabel(MetricAliases[k]) == k
  {
    LabelOfCanonical(MetricAliases[k], "net profit +", k, " +");
  }

  lemma OperatingProfitFixed(k: string)
    requires k == "operating profit"
    ensures NormalizeLabel(MetricAliases[k]) == k
  {
    LabelOfCanonical(MetricAliases[k], "operating profit", k, []);
  }

  lemma OpmFixed(k: string)
    requires k == "opm"
    ensures NormalizeLabel(MetricAliases[k]) == k
  {
    LabelOfCanonical(MetricAliases[k], "opm %", k, " %");
  }

  lemma EpsInRsFixed(k: string)
    requires k == "eps in rs"
    ensures NormalizeLabel(MetricAliases[k]) == k
  {
    LabelOfCanonical(MetricAliases[k], "eps in rs", k, []);
  }

  lemma BorrowingsFixed(k: string)
    requires k == "borrowings"
    ensures NormalizeLabel(MetricAliases[k]) == k
  {
    LabelOfCanonical(MetricAliases[k], "borrowings +", k, " +");
  }

  lemma EquityCapitalFixed(k: string)
    requires k == "equity capital"
    ensures NormalizeLabel(MetricAliases[k]) == k
  {
    LabelOfCanonical(MetricAliases[k], "equity capital", k, []);
  }

  lemma ReservesFixed(k: string)
    requires k == "reserves"
    ensures NormalizeLabel(MetricAliases[k]) == k
  {
    LabelOfCanonical(MetricAliases[k], "reserves", k, []);
  }

  /** The alias target of `k` normalises back to `k`. */
  lemma AliasTargetFixed(k: string)
    requires k in MetricAliases
    ensures NormalizeLabel(MetricAliases[k]) == k
  {
    if k == "sales" {
      SalesFixed(k);
    } else if k == "expenses" {
      ExpensesFixed(k);
    } else if k == "net profit" {
      NetProfitFixed(k);
    } else if k == "operating profit" {
      OperatingProfitFixed(k);
    } else if k == "opm" {
      OpmFixed(k);
    } else if k == "eps in rs" {
      EpsInRsFixed(k);
    } else if k == "borrowings" {
      BorrowingsFixed(k);
    } else if k == "equity capital" {
      EquityCapitalFixed(k);
    } else {
      ReservesFixed(k);
    }
  }

  /** Every alias target is canonical: it normalises to itself. */
  lemma AliasTargetsAreFixed()
    ensures forall k | k in MetricAliases :: NormalizeMetric(MetricAliases[k]) == MetricAliases[k]
  {
    forall k | k in MetricAliases
      ensures NormalizeMetric(MetricAliases[k]) == MetricAliases[k]
    {
      AliasTargetFixed(k);
    }
  }

  /** Canonicalising twice is canonicalising once. */
  lemma NormalizeMetricIdempotent(metric: string)
    ensures NormalizeMetric(NormalizeMetric(metric)) == NormalizeMetric(metric)
  {
    var key := NormalizeLabel(metric);
    if key in MetricAliases {
      AliasTargetsAreFixed();
    } else {
      NormalizeLabelOfStripped(metric);
      StripIdempotent(metric);
    }
  }
}
