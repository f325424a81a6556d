/** The query-answering agent's nodes: metric normalisation, query
    parsing, the skip rule before ingesting, and the lookup behind the
    answer. */
module Nodes {
  import opened Wrappers
  import opened Text
  import opened Store
  import opened Freshness
  import opened Ingestion

  // ---------------------------------------------------------------------
  // normalize_metric
  // ---------------------------------------------------------------------

  /** `s.replace("%", " %")`. */
  function PadPercent(s: string): string
    decreases |s|
  {
    if s == [] then [] else (if s[0] == '%' then " %" else [s[0]]) + PadPercent(s[1..])
  }

  /** `re.sub(r"\s+", " ", s)`, read left to right: `inRun` says the
      character before `s` was whitespace already turned into the run's one
      space. */
  function SquashFrom(s: string, inRun: bool): string
    decreases |s|
  {
    if s == [] then []
    else if IsSpace(s[0]) then (if inRun then [] else " ") + SquashFrom(s[1..], true)
    else [s[0]] + SquashFrom(s[1..], false)
  }

  /** `normalize_metric` of the agent: upper-case, put a space before each
      `%`, turn every run of whitespace into one space, strip. */
  function NormalizeMetric(metric: string): string {
    Strip(SquashFrom(PadPercent(Upper(metric)), false))
  }

  predicate NoLower(s: string) {
    forall i | 0 <= i < |s| :: !IsLower(s[i])
  }

  /** Every whitespace character is a plain space and no two are adjacent. */
  predicate SingleSpaced(s: string) {
    && (forall i | 0 <= i < |s| && IsSpace(s[i]) :: s[i] == ' ')
    && (forall i {:trigger s[i]} | 0 <= i < |s| - 1 :: !(IsSpace(s[i]) && IsSpace(s[i + 1])))
  }

  /** Every `%` but a leading one follows a space. */
  predicate PercentSpaced(s: string) {
    forall i {:trigger s[i]} | 0 < i < |s| && s[i] == '%' :: s[i - 1] == ' '
  }

  /** The shape of every normalised metric. */
  predicate Canonical(s: string) {
    NoLower(s) && SingleSpaced(s) && PercentSpaced(s) && NoOuterSpace(s)
  }

  lemma UpperNoLower(s: string)
    ensures NoLower(Upper(s))
  {
  }

  /** After padding, every `%` follows a space, and no lower-case letter
      appears that was not there. */
  lemma {:induction false} PadPercentSpaced(s: string)
    ensures forall i | 0 <= i < |PadPercent(s)| && PadPercent(s)[i] == '%' :: i > 0 && PadPercent(s)[i - 1] == ' '
    ensures NoLower(s) ==> NoLower(PadPercent(s))
    decreases |s|
  {
    if s != [] {
      PadPercentSpaced(s[1..]);
      var head := if s[0] == '%' then " %" else [s[0]];
      var r := PadPercent(s);
      assert r == head + PadPercent(s[1..]);
      forall i | 0 <= i < |r| && r[i] == '%'
        ensures i > 0 && r[i - 1] == ' '
      {
        if i >= |head| {
          assert r[i] == PadPercent(s[1..])[i - |head|];
        }
      }
      if NoLower(s) {
        assert NoLower(s[1..]);
      }
    }
  }

  /** Before squashing: every `%` follows whitespace, or starts the text
      right after a run. */
  predicate PercentAfterSpace(s: string, inRun: bool) {
    forall i {:trigger s[i]} | 0 <= i < |s| && s[i] == '%' :: if i == 0 then inRun else IsSpace(s[i - 1])
  }

  /** After squashing: every `%` follows a space, or starts the text right
      after a run. */
  predicate PercentAfterRun(o: string, inRun: bool) {
    forall i {:trigger o[i]} | 0 <= i < |o| && o[i] == '%' :: if i == 0 then inRun else o[i - 1] == ' '
  }

  /** The shape squashing leaves: single plain spaces, no space first when
      continuing a run, and every `%` after a space. */
  predicate Squashed(o: string, inRun: bool) {
    SingleSpaced(o) && (inRun && o != [] ==> !IsSpace(o[0])) && PercentAfterRun(o, inRun)
  }

  /** A whitespace character adds a space only when it starts a run. */
  lemma SquashedAfterSpace(o: string, inRun: bool)
    requires Squashed(o, true)
    ensures Squashed((if inRun then [] else " ") + o, inRun)
  {
    var r := (if inRun then [] else " ") + o;
    if inRun {
      assert r == o;
    } else {
      assert forall i | 0 < i < |r| :: r[i] == o[i - 1];
    }
  }

  /** Any other character is copied and ends the run. */
  lemma SquashedAfterChar(c: char, o: string, inRun: bool)
    requires !IsSpace(c) && (c == '%' ==> inRun) && Squashed(o, false)
    ensures Squashed([c] + o, inRun)
  {
    var r := [c] + o;
    assert forall i | 0 < i < |r| :: r[i] == o[i - 1];
    assert SingleSpaced(r);
    assert PercentAfterRun(r, inRun);
  }

  /** What squashing leaves when every `%` follows whitespace. */
  lemma {:induction false} SquashShape(s: string, inRun: bool)
    requires PercentAfterSpace(s, inRun)
    ensures Squashed(SquashFrom(s, inRun), inRun)
    decreases |s|
  {
    if s != [] {
      var rest := s[1..];
      var b := IsSpace(s[0]);
      forall i | 0 <= i < |rest| && rest[i] == '%'
        ensures if i == 0 then b else IsSpace(rest[i - 1])
      {
        assert s[i + 1] == '%';
      }
      SquashShape(rest, b);
      if b {
        SquashedAfterSpace(SquashFrom(rest, true), inRun);
      } else {
        assert s[0] == '%' ==> inRun;
        SquashedAfterChar(s[0], SquashFrom(rest, false), inRun);
      }
    }
  }

  /** Squashing only adds spaces. */
  lemma {:induction false} SquashChars(s: string, inRun: bool)
    ensures forall c | c in SquashFrom(s, inRun) :: c == ' ' || c in s
    decreases |s|
  {
    if s != [] {
      SquashChars(s[1..], IsSpace(s[0]));
      assert forall c | c in s[1..] :: c in s;
    }
  }

  /** `strip` keeps a contiguous piece of its input. */
  lemma StripPiece(s: string)
    ensures LeadCount(s) + |Strip(s)| <= |s|
    ensures forall i | 0 <= i < |Strip(s)| :: Strip(s)[i] == s[LeadCount(s) + i]
  {
  }

  /** A piece of squashed text keeps the squashed shape. */
  lemma SquashedPiece(o: string, a: nat, y: string)
    requires Squashed(o, false) && NoLower(o)
    requires a + |y| <= |o| && forall i | 0 <= i < |y| :: y[i] == o[a + i]
    ensures NoLower(y) && SingleSpaced(y) && PercentSpaced(y)
  {
    forall i | 0 < i < |y| && y[i] == '%'
      ensures y[i - 1] == ' '
    {
      assert o[a + i] == '%';
      assert o[a + i - 1] == y[i - 1];
    }
    forall i | 0 <= i < |y| - 1
      ensures !(IsSpace(y[i]) && IsSpace(y[i + 1]))
    {
      assert y[i] == o[a + i] && y[i + 1] == o[a + i + 1];
    }
  }

  /** Squashing adds no lower-case letter. */
  lemma SquashNoLower(p: string, inRun: bool)
    requires NoLower(p)
    ensures NoLower(SquashFrom(p, inRun))
  {
    var o := SquashFrom(p, inRun);
    SquashChars(p, inRun);
    forall i | 0 <= i < |o|
      ensures !IsLower(o[i])
    {
      assert o[i] in o;
    }
  }

  /** The text before the final strip is squashed and has no lower-case
      letter. */
  lemma SquashedBeforeStrip(metric: string)
    ensures var o := SquashFrom(PadPercent(Upper(metric)), false);
      Squashed(o, false) && NoLower(o)
  {
    var u := Upper(metric);
    UpperNoLower(metric);
    var p := PadPercent(u);
    PadPercentSpaced(u);
    assert PercentAfterSpace(p, false);
    SquashShape(p, false);
    SquashNoLower(p, false);
  }

  /** Every normalised metric is upper-case, single-spaced, has no outer
      whitespace, and has a space before each `%` but a leading one. */
  lemma NormalizeCanonical(metric: string)
    ensures Canonical(NormalizeMetric(metric))
  {
    var o := SquashFrom(PadPercent(Upper(metric)), false);
    SquashedBeforeStrip(metric);
    StripPiece(o);
    SquashedPiece(o, LeadCount(o), Strip(o));
    StripNoOuterSpace(o);
  }

  lemma PadPercentCons(s: string)
    requires s != []
    ensures PadPercent(s) == (if s[0] == '%' then " %" else [s[0]]) + PadPercent(s[1..])
  {
  }

  lemma SquashSpaceCons(r: string, inRun: bool)
    ensures SquashFrom(" " + r, inRun) == (if inRun then [] else " ") + SquashFrom(r, true)
  {
    assert (" " + r)[1..] == r;
  }

  lemma SquashCharCons(c: char, r: string, inRun: bool)
    requires !IsSpace(c)
    ensures SquashFrom([c] + r, inRun) == [c] + SquashFrom(r, false)
  {
    assert ([c] + r)[1..] == r;
  }

  /** The shape is kept by dropping the first character. */
  lemma ShapeTail(y: string)
    requires y != [] && SingleSpaced(y) && PercentSpaced(y)
    ensures SingleSpaced(y[1..]) && PercentSpaced(y[1..])
    ensures |y| > 1 && y[1] == '%' ==> y[0] == ' '
    ensures |y| > 1 && y[0] == ' ' ==> y[1] != ' '
  {
    var rest := y[1..];
    assert forall i | 0 <= i < |rest| :: rest[i] == y[i + 1];
    forall i | 0 < i < |rest| && rest[i] == '%'
      ensures rest[i - 1] == ' '
    {
      assert y[i + 1] == '%';
    }
    if |y| > 1 {
      assert y[1] == y[1];
    }
  }

  lemma SquashPadPercent(y: string, inRun: bool)
    requires y != [] && y[0] == '%'
    requires SquashFrom(PadPercent(y[1..]), false) == y[1..]
    ensures SquashFrom(PadPercent(y), inRun) == (if inRun then y else " " + y)
  {
    var p1 := PadPercent(y[1..]);
    assert PadPercent(y) == " " + ("%" + p1) by {
      PadPercentCons(y);
      assert " %" + p1 == " " + ("%" + p1);
    }
    SquashSpaceCons("%" + p1, inRun);
    SquashCharCons('%', p1, true);
    assert SquashFrom("%" + p1, true) == y by {
      assert y == "%" + y[1..];
    }
  }

  lemma SquashPadSpace(y: string)
    requires y != [] && y[0] == ' '
    requires SquashFrom(PadPercent(y[1..]), true) == y[1..]
    ensures SquashFrom(PadPercent(y), false) == y
  {
    PadPercentCons(y);
    SquashSpaceCons(PadPercent(y[1..]), false);
    assert y == " " + y[1..];
  }

  lemma SquashPadChar(y: string, inRun: bool)
    requires y != [] && y[0] != '%' && !IsSpace(y[0])
    requires SquashFrom(PadPercent(y[1..]), false) == y[1..]
    ensures SquashFrom(PadPercent(y), inRun) == y
  {
    PadPercentCons(y);
    SquashCharCons(y[0], PadPercent(y[1..]), inRun);
    assert y == [y[0]] + y[1..];
  }

  /** Padding and squashing text already in shape gives it back, with a
      space in front when it starts with `%` outside a run. */
  lemma {:induction false} SquashPadFixed(y: string, inRun: bool)
    requires SingleSpaced(y) && PercentSpaced(y)
    requires inRun && y != [] ==> y[0] != ' '
    ensures SquashFrom(PadPercent(y), inRun) == (if !inRun && y != [] && y[0] == '%' then " " + y else y)
    decreases |y|
  {
    if y != [] {
      ShapeTail(y);
      if y[0] == ' ' {
        SquashPadFixed(y[1..], true);
        SquashPadSpace(y);
      } else {
        SquashPadFixed(y[1..], false);
        if y[0] == '%' {
          SquashPadPercent(y, inRun);
        } else {
          SquashPadChar(y, inRun);
        }
      }
    }
  }

  lemma UpperFixed(s: string)
    requires NoLower(s)
    ensures Upper(s) == s
  {
  }

  /** Text in the normalised shape is its own normalisation. */
  lemma NormalizeFixed(y: string)
    requires Canonical(y)
    ensures NormalizeMetric(y) == y
  {
    UpperFixed(y);
    var o := SquashFrom(PadPercent(y), false);
    SquashPadFixed(y, false);
    assert Strip(o) == Strip(y) by {
      if y != [] && y[0] == '%' {
        assert o == " " + y + "";
        StripPadded(" ", y, "");
      }
    }
    StripUnframed(y);
  }

  /** `normalize_metric` is idempotent. */
  lemma NormalizeIdempotent(metric: string)
    ensures NormalizeMetric(NormalizeMetric(metric)) == NormalizeMetric(metric)
  {
    NormalizeCanonical(metric);
    NormalizeFixed(NormalizeMetric(metric));
  }

  // ---------------------------------------------------------------------
  // parse_query
  // ---------------------------------------------------------------------

  /** `\w` on ASCII: letters, digits and the underscore. */
  predicate IsWordChar(c: char) {
    IsLower(c) || IsUpper(c) || IsDigit(c) || c == '_'
  }

  /** Where the run of word characters starting at `i` ends. */
  function WordEnd(q: string, i: nat): (j: nat)
    requires i <= |q|
    ensures i <= j <= |q|
    ensures forall k | i <= k < j :: IsWordChar(q[k])
    ensures j == |q| || !IsWordChar(q[j])
    decreases |q| - i
  {
    if i < |q| && IsWordChar(q[i]) then WordEnd(q, i + 1) else i
  }

  /** `\b[A-Z]{2,}\b` matches at `i`: a whole word of two or more capitals
      starts there. */
  predicate MatchAt(q: string, i: nat) {
    && i < |q|
    && (i == 0 || !IsWordChar(q[i - 1]))
    && WordEnd(q, i) >= i + 2
    && forall k | i <= k < WordEnd(q, i) :: IsUpper(q[k])
  }

  /** The word starting at `i`. */
  function WordAt(q: string, i: nat): string
    requires i <= |q|
  {
    q[i..WordEnd(q, i)]
  }

  /** `re.findall(r"\b[A-Z]{2,}\b", q)` among the matches starting before `n`. */
  function CapitalWords(q: string, n: nat): (ws: seq<string>)
    requires n <= |q|
    decreases n
  {
    if n == 0 then []
    else CapitalWords(q, n - 1) + (if MatchAt(q, n - 1) then [WordAt(q, n - 1)] else [])
  }

  /** `tickers[-1] if tickers else None`. */
  function Ticker(q: string): Option<string> {
    var ws := CapitalWords(q, |q|);
    if ws == [] then None else Some(ws[|ws| - 1])
  }

  /** The start of the last match before `n`, if any. */
  function LastMatchBelow(q: string, n: nat): (r: Option<nat>)
    requires n <= |q|
    ensures r.Some? ==> r.value < n
    decreases n
  {
    if n == 0 then None
    else if MatchAt(q, n - 1) then Some(n - 1)
    else LastMatchBelow(q, n - 1)
  }

  lemma {:induction false} LastMatchBelowFinds(q: string, n: nat)
    requires n <= |q|
    ensures var r := LastMatchBelow(q, n);
      && (r.None? ==> forall i | 0 <= i < n :: !MatchAt(q, i))
      && (r.Some? ==> r.value < n && MatchAt(q, r.value) && forall k | r.value < k < n :: !MatchAt(q, k))
    decreases n
  {
    if n > 0 && !MatchAt(q, n - 1) {
      LastMatchBelowFinds(q, n - 1);
    }
  }

  /** The words found before `n` end with the word of the last match there. */
  lemma {:induction false} CapitalWordsLast(q: string, n: nat)
    requires n <= |q|
    ensures var ws := CapitalWords(q, n);
      && (ws == [] <==> LastMatchBelow(q, n).None?)
      && (ws != [] ==> ws[|ws| - 1] == WordAt(q, LastMatchBelow(q, n).value))
    decreases n
  {
    if n > 0 {
      if MatchAt(q, n - 1) {
        assert CapitalWords(q, n) == CapitalWords(q, n - 1) + [WordAt(q, n - 1)];
      } else {
        CapitalWordsLast(q, n - 1);
        assert CapitalWords(q, n) == CapitalWords(q, n - 1);
      }
    }
  }

  /** The ticker is the last whole word of two or more capital letters, and
      there is none exactly when no such word occurs. */
  lemma TickerIsLastCapitalWord(q: string)
    ensures Ticker(q).None? <==> forall i | 0 <= i < |q| :: !MatchAt(q, i)
    ensures Ticker(q).Some? ==>
      exists i | 0 <= i < |q| :: MatchAt(q, i) && Ticker(q).value == q[i..WordEnd(q, i)]
                                 && forall k | i < k < |q| :: !MatchAt(q, k)
  {
    CapitalWordsLast(q, |q|);
    LastMatchBelowFinds(q, |q|);
  }

  /** A ticker is at least two capital letters long and holds nothing else. */
  lemma TickerShape(q: string)
    requires Ticker(q).Some?
    ensures |Ticker(q).value| >= 2
    ensures forall k | 0 <= k < |Ticker(q).value| :: IsUpper(Ticker(q).value[k])
  {
    TickerIsLastCapitalWord(q);
    var i :| 0 <= i < |q| && MatchAt(q, i) && Ticker(q).value == q[i..WordEnd(q, i)];
    assert forall k | 0 <= k < |Ticker(q).value| :: Ticker(q).value[k] == q[i + k];
  }

  /** `METRIC_SYNONYMS`, in its insertion order. */
  const MetricSynonyms: seq<(string, seq<string>)> := [
    ("P/E", ["PRICE TO EARNING", "PRICE TO EARNINGS", "PE RATIO", "P E RATIO", "P/E", "PE"]),
    ("OPM %", ["OPM", "OPM %", "OPERATING PROFIT MARGIN", "OPERATING MARGIN"]),
    ("EPS", ["EPS", "EARNINGS PER SHARE"])
  ]

  predicate AnyPhrase(q: string, phrases: seq<string>) {
    exists p | p in phrases :: Contains(q, p)
  }

  /** The first canonical metric from entry `i` on that has a phrase in `q`. */
  function FirstMetricFrom(q: string, i: nat): Option<string>
    requires i <= |MetricSynonyms|
    decreases |MetricSynonyms| - i
  {
    if i == |MetricSynonyms| then None
    else if AnyPhrase(q, MetricSynonyms[i].1) then Some(MetricSynonyms[i].0)
    else FirstMetricFrom(q, i + 1)
  }

  function FirstMetric(q: string): Option<string> {
    FirstMetricFrom(q, 0)
  }

  /** The nested loops of `parse_query` over the synonyms: the first
      canonical name, in order, one of whose phrases occurs in `q`. */
  method FindMetric(q: string) returns (metric: Option<string>)
    ensures metric == FirstMetric(q)
  {
    metric := None;
    var i := 0;
    while i < |MetricSynonyms|
      invariant 0 <= i <= |MetricSynonyms|
      invariant metric.None? && FirstMetricFrom(q, i) == FirstMetric(q)
    {
      var canonical := MetricSynonyms[i].0;
      var phrases := MetricSynonyms[i].1;
      var j := 0;
      while j < |phrases|
        invariant 0 <= j <= |phrases|
        invariant metric.None? ==> forall m | 0 <= m < j :: !Contains(q, phrases[m])
        invariant metric.Some? ==> metric == Some(canonical) && AnyPhrase(q, phrases)
      {
        if Contains(q, phrases[j]) {
          metric := Some(canonical);
          break;
        }
        j := j + 1;
      }
      if metric.Some? {
        break;
      }
      i := i + 1;
    }
  }

  /** How a Python `None` or string shows inside an f-string. */
  function Shown(x: Option<string>): string {
    if x.None? then "None" else x.value
  }

  /** The `ValueError` text of a query that cannot be parsed. */
  function ParseError(ticker: Option<string>, metric: Option<string>): string {
    "Could not parse ticker or metric from query: ticker=" + Shown(ticker) + ", metric=" + Shown(metric)
  }

  /** `parse_query`: the ticker and metric of the upper-cased query added
      to the state, or the `ValueError` when either is missing. */
  method ParseQuery(state: map<string, string>) returns (r: Result<map<string, string>>)
    requires "query" in state
    ensures var q := Upper(state["query"]);
      && (r.Ok? <==> Ticker(q).Some? && FirstMetric(q).Some?)
      && (r.Ok? ==> r.value == state["ticker" := Ticker(q).value]["metric" := FirstMetric(q).value])
      && (r.Err? ==> r.error == ParseError(Ticker(q), FirstMetric(q)))
  {
    var query := Upper(state["query"]);
    var ticker := Ticker(query);
    var metric := FindMetric(query);
    if ticker.None? || metric.None? {
      return Err(ParseError(ticker, metric));
    }
    return Ok(state["ticker" := ticker.value]["metric" := metric.value]);
  }

  /** On success only "ticker" and "metric" change. */
  lemma ParseKeepsState(state: map<string, string>, ticker: string, metric: string)
    ensures var s := state["ticker" := ticker]["metric" := metric];
      && s.Keys == state.Keys + {"ticker", "metric"}
      && s["ticker"] == ticker && s["metric"] == metric
      && forall k | k in state && k != "ticker" && k != "metric" :: s[k] == state[k]
  {
  }

  /** A piece of a phrase occurs wherever the phrase does. */
  lemma ContainsPiece(s: string, p: string, a: nat, b: nat)
    requires a <= b <= |p| && Contains(s, p)
    ensures Contains(s, p[a..b])
  {
    var i: nat :| i <= |s| && OccursAt(s, p, i);
    assert forall k | 0 <= k < b - a :: s[i + a..i + b][k] == s[i + a + k] == p[a + k] == p[a..b][k];
    assert OccursAt(s, p[a..b], i + a);
  }

  /** The phrases that decide P/E once the ones containing another are
      folded in: "PRICE TO EARNINGS" holds "PRICE TO EARNING", and "PE"
      sits inside "PE RATIO". */
  predicate PeCue(q: string) {
    Contains(q, "PRICE TO EARNING") || Contains(q, "P E RATIO") || Contains(q, "P/E") || Contains(q, "PE")
  }

  lemma PeSynonyms(q: string)
    ensures AnyPhrase(q, MetricSynonyms[0].1) <==> PeCue(q)
  {
    var ps := MetricSynonyms[0].1;
    if Contains(q, "PRICE TO EARNINGS") {
      assert "PRICE TO EARNINGS"[0..16] == "PRICE TO EARNING";
      ContainsPiece(q, "PRICE TO EARNINGS", 0, 16);
    }
    if Contains(q, "PE RATIO") {
      assert "PE RATIO"[0..2] == "PE";
      ContainsPiece(q, "PE RATIO", 0, 2);
    }
    if PeCue(q) {
      assert "PRICE TO EARNING" == ps[0] && "P E RATIO" == ps[3] && "P/E" == ps[4] && "PE" == ps[5];
    }
  }

  /** Every OPM % phrase but "OPM" itself either contains "OPM" or holds
      "PE" ("OPERATING"), so it is caught earlier. */
  lemma OpmSynonyms(q: string)
    ensures !PeCue(q) ==> (AnyPhrase(q, MetricSynonyms[1].1) <==> Contains(q, "OPM"))
  {
    if Contains(q, "OPM %") {
      assert "OPM %"[0..3] == "OPM";
      ContainsPiece(q, "OPM %", 0, 3);
    }
    if Contains(q, "OPERATING PROFIT MARGIN") {
      assert "OPERATING PROFIT MARGIN"[1] == 'P' && "OPERATING PROFIT MARGIN"[2] == 'E';
      assert "OPERATING PROFIT MARGIN"[1..3] == "PE";
      ContainsPiece(q, "OPERATING PROFIT MARGIN", 1, 3);
    }
    if Contains(q, "OPERATING MARGIN") {
      assert "OPERATING MARGIN"[1] == 'P' && "OPERATING MARGIN"[2] == 'E';
      assert "OPERATING MARGIN"[1..3] == "PE";
      ContainsPiece(q, "OPERATING MARGIN", 1, 3);
    }
    assert "OPM" == MetricSynonyms[1].1[0];
  }

  /** "EARNINGS PER SHARE" holds "PE", so only "EPS" can still pick EPS. */
  lemma EpsSynonyms(q: string)
    ensures !PeCue(q) ==> (AnyPhrase(q, MetricSynonyms[2].1) <==> Contains(q, "EPS"))
  {
    if Contains(q, "EARNINGS PER SHARE") {
      assert "EARNINGS PER SHARE"[9..11] == "PE";
      ContainsPiece(q, "EARNINGS PER SHARE", 9, 11);
    }
    assert "EPS" == MetricSynonyms[2].1[0];
  }

  /** Which metric a query names, stated without the synonym table: P/E
      wins whenever "PE" occurs anywhere (so "OPERATING MARGIN" and
      "EARNINGS PER SHARE" both read as P/E), then "OPM", then "EPS". */
  lemma FirstMetricCases(q: string)
    ensures FirstMetric(q) == Some("P/E") <==> PeCue(q)
    ensures FirstMetric(q) == Some("OPM %") <==> !PeCue(q) && Contains(q, "OPM")
    ensures FirstMetric(q) == Some("EPS") <==> !PeCue(q) && !Contains(q, "OPM") && Contains(q, "EPS")
    ensures FirstMetric(q).None? <==> !PeCue(q) && !Contains(q, "OPM") && !Contains(q, "EPS")
  {
    PeSynonyms(q);
    OpmSynonyms(q);
    EpsSynonyms(q);
    assert FirstMetricFrom(q, 3) == None;
  }

  // ---------------------------------------------------------------------
  // ingest_data
  // ---------------------------------------------------------------------

  /** `FRESH_DAYS` of the agent's ingest step. */
  const FreshDays: int := 7

  /** The ticker's status row is COMPLETE and updated within `FreshDays`. */
  predicate SkipsIngestion(status: map<string, StatusRow>, ticker: string, today: Day) {
    ticker in status && status[ticker].status == Complete && status[ticker].lastUpdated >= today - FreshDays
  }

  /** `ingest_data`: the state comes back unchanged; the job runs unless the
      ticker completed within the last week. */
  method IngestData(db: Session, state: map<string, string>, today: Day, attempts: seq<Attempt>)
    returns (out: map<string, string>)
    requires "ticker" in state && |attempts| == MaxRetries
    modifies db
    ensures out == state
    ensures SkipsIngestion(old(db.current).status, state["ticker"], today) ==>
      db.current == old(db.current) && db.committed == old(db.committed)
    ensures !SkipsIngestion(old(db.current).status, state["ticker"], today) ==>
      db.current == FetchAndStore(old(db.current), state["ticker"], today, attempts).tables && db.committed == db.current
  {
    var ticker := state["ticker"];
    if ticker in db.current.status {
      var row := db.current.status[ticker];
      var isFresh := row.status == Complete && row.lastUpdated >= today - FreshDays;
      if isFresh {
        return state;
      }
    }
    var _ := FetchAndStoreFundamentals(db, ticker, today, attempts);
    return state;
  }

  /** Running the step again the same day skips exactly when the job it
      started completed; a failed job is retried, and nothing skips a
      ticker it has never seen. */
  lemma IngestAgainSkipsIffComplete(t: Tables, ticker: string, today: Day, attempts: seq<Attempt>)
    requires |attempts| == MaxRetries
    ensures ticker !in t.status ==> !SkipsIngestion(t.status, ticker, today)
    ensures var after := FetchAndStore(t, ticker, today, attempts).tables;
      SkipsIngestion(after.status, ticker, today) <==> ticker in after.status && after.status[ticker].status == Complete
  {
    FetchAndStoreSettles(t, ticker, today, attempts);
  }

  /** The window: a COMPLETE row exactly a week old still skips, one day
      older does not. */
  lemma SkipWindow(status: map<string, StatusRow>, ticker: string, today: Day)
    requires ticker in status && status[ticker].status == Complete
    ensures status[ticker].lastUpdated == today - 7 ==> SkipsIngestion(status, ticker, today)
    ensures status[ticker].lastUpdated == today - 8 ==> !SkipsIngestion(status, ticker, today)
  {
  }

  // ---------------------------------------------------------------------
  // answer
  // ---------------------------------------------------------------------

  /** `metric.replace(" ", "").replace("%", "").upper()`. */
  function LookupKey(metric: string): (key: string)
    ensures forall i | 0 <= i < |key| :: key[i] != ' ' && key[i] != '%' && !IsLower(key[i])
  {
    var w := Without(Without(metric, {' '}), {'%'});
    assert forall i | 0 <= i < |w| :: w[i] != ' ' by {
      forall i | 0 <= i < |w|
        ensures w[i] != ' '
      {
        assert w[i] in w;
      }
    }
    Upper(w)
  }

  /** The keys of the three metrics a query can name: only OPM % changes,
      to "OPM". */
  lemma LookupKeyOpm()
    ensures LookupKey("OPM %") == "OPM"
  {
    assert Without("OPM %", {' '}) == "OPM%";
    assert Without("OPM%", {'%'}) == "OPM";
  }

  lemma LookupKeyPe()
    ensures LookupKey("P/E") == "P/E"
  {
    assert Without("P/E", {' '}) == "P/E";
    assert Without("P/E", {'%'}) == "P/E";
  }

  lemma LookupKeyEps()
    ensures LookupKey("EPS") == "EPS"
  {
    assert Without("EPS", {' '}) == "EPS";
    assert Without("EPS", {'%'}) == "EPS";
  }

  /** The ratio rows of the ticker whose metric name holds the key, ignoring
      case: `metric ILIKE '%key%'`. */
  function Candidates(ratios: map<RatioKey, RatioRow>, ticker: string, key: string): set<RatioKey> {
    set k | k in ratios && k.ticker == ticker && Contains(Upper(k.metric), key)
  }

  /** The rows `order by scraped_at desc limit 1` may return: the candidates
      of the latest scrape date (the database picks any one of them). */
  function Newest(ratios: map<RatioKey, RatioRow>, ticker: string, key: string): (rows: set<RatioKey>)
    ensures rows <= Candidates(ratios, ticker, key)
    ensures rows == {} <==> Candidates(ratios, ticker, key) == {}
    ensures forall a, b | a in rows && b in Candidates(ratios, ticker, key) :: b.date <= a.date
  {
    var c := Candidates(ratios, ticker, key);
    if c == {} then {}
    else
      var dates := set k | k in c :: k.date;
      assert forall k | k in c :: k.date in dates;
      var d := MaxOf(dates);
      var rows := set k | k in c && k.date == d;
      assert rows != {} by {
        var w :| w in c && w.date == d;
        assert w in rows;
      }
      rows
  }

  /** What `answer` found: no row, or the newest matching rows (the model
      leaves out the explanation text). */
  datatype Answer = NoData(text: string) | Found(rows: set<RatioKey>)

  /** `answer` without the language-model explanation. */
  function AnswerOf(ratios: map<RatioKey, RatioRow>, state: map<string, string>): (a: Answer)
    requires "ticker" in state && "metric" in state
    ensures var c := Candidates(ratios, state["ticker"], LookupKey(state["metric"]));
      && (a.NoData? <==> c == {})
      && (a.NoData? ==> a.text == "No data found for " + state["metric"] + " of " + state["ticker"])
      && (a.Found? ==> a.rows != {} && a.rows <= c && forall x, y | x in a.rows && y in c :: y.date <= x.date)
  {
    var ticker := state["ticker"];
    var metric := state["metric"];
    var rows := Newest(ratios, ticker, LookupKey(metric));
    if rows == {} then NoData("No data found for " + metric + " of " + ticker) else Found(rows)
  }

  /** A row of the ticker whose metric name is the key, in any case, is
      always a candidate, so the answer is never "No data found". */
  lemma AnswerFindsExactName(ratios: map<RatioKey, RatioRow>, state: map<string, string>, k: RatioKey)
    requires "ticker" in state && "metric" in state
    requires k in ratios && k.ticker == state["ticker"] && Upper(k.metric) == LookupKey(state["metric"])
    ensures AnswerOf(ratios, state).Found?
  {
    assert OccursAt(Upper(k.metric), LookupKey(state["metric"]), 0);
    assert k in Candidates(ratios, state["ticker"], LookupKey(state["metric"]));
  }
}
