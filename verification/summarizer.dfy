/** The summarizer service: text cleaning, section composition, token-budgeted
    truncation, the extraction length gate and the summary quality gate
    (`summarizer_agent.py`).

    The PDF reader, the section regexes, the tokenizer and the summarization
    model are parameters: the pages as a `Result<seq<string>>`, the two regex
    searches as functions to an optional span, token counting as
    `count: string -> nat`, and the model as `generate: string -> Result<string>`. */
module Summarizer {

  import opened Results
  import opened Text

  const References := "references"
  const Bibliography := "bibliography"

  /** Characters kept by the fallback when no section was found. */
  const FallbackChars := 3000
  /** `smart_truncate`'s default token budget, the one `summarize_paper` uses. */
  const InputTokenBudget := 900
  /** Minimum stripped length of the extracted text. */
  const MinExtractedChars := 100
  /** Minimum number of words of an accepted summary. */
  const MinSummaryWords := 30

  const AbstractLabel := "Abstract: "
  const MainLabel := "\n\nMain Content: "
  const FallbackSummary := "Unable to generate meaningful summary. The paper content may be too complex or insufficient."
  const PathError := "Valid PDF path required"
  const ExtractionPrefix := "PDF extraction failed: "
  const TooShort := "Extracted text is too short"
  const SummarizationPrefix := "Summarization failed: "

  // ---------------------------------------------------------------------------
  // Word-bounded, case-insensitive headings (`\bREFERENCES\b` with IGNORECASE)
  // ---------------------------------------------------------------------------

  /** `re`'s `\b` at position `i`: a word character on exactly one side. */
  predicate Boundary(s: string, i: int)
    requires 0 <= i <= |s|
  {
    (i > 0 && IsWordChar(s[i - 1])) != (i < |s| && IsWordChar(s[i]))
  }

  /** A heading keyword: non-empty, lower-case word characters. */
  predicate Keyword(kw: string) {
    |kw| > 0 && forall k | 0 <= k < |kw| :: IsWordChar(kw[k]) && LowerChar(kw[k]) == kw[k]
  }

  /** `\bKW\b` matches `s` at `i`, ignoring case. */
  predicate HeadingAt(s: string, kw: string, i: int) {
    && 0 <= i && i + |kw| <= |s|
    && (forall k | 0 <= k < |kw| :: LowerChar(s[i + k]) == kw[k])
    && Boundary(s, i) && Boundary(s, i + |kw|)
  }

  lemma HeadingKeywords()
    ensures Keyword(References) && Keyword(Bibliography)
  {
  }

  predicate HasHeading(s: string, kw: string) {
    exists i | 0 <= i <= |s| :: HeadingAt(s, kw, i)
  }

  lemma WordCharOfLower(c: char)
    ensures IsWordChar(LowerChar(c)) ==> IsWordChar(c)
  {
  }

  /** Every character of a heading occurrence is a word character. */
  lemma HeadingIsWord(s: string, kw: string, i: int, k: int)
    requires Keyword(kw) && HeadingAt(s, kw, i) && 0 <= k < |kw|
    ensures IsWordChar(s[i + k])
  {
    assert LowerChar(s[i + k]) == kw[k];
    assert IsWordChar(kw[k]);
    WordCharOfLower(s[i + k]);
  }

  /** A heading found in a slice is a heading of the whole string, provided the
      slice is not cut in the middle of a word. */
  lemma HeadingInSlice(s: string, kw: string, a: nat, b: nat, j: int)
    requires Keyword(kw) && a <= b <= |s|
    requires a == 0 || a == |s| || !IsWordChar(s[a - 1]) || !IsWordChar(s[a])
    requires b == 0 || b == |s| || !IsWordChar(s[b - 1]) || !IsWordChar(s[b])
    requires HeadingAt(s[a..b], kw, j)
    ensures HeadingAt(s, kw, a + j)
  {
    var t := s[a..b];
    var n := |kw|;
    assert forall m | j <= m < j + n :: t[m] == s[a + m];
    HeadingIsWord(t, kw, j, 0);
    HeadingIsWord(t, kw, j, n - 1);
    if j > 0 {
      assert t[j - 1] == s[a + j - 1];
    }
    if j + n < |t| {
      assert t[j + n] == s[a + j + n];
    }
  }

  /** A heading that ends before a cut survives the cut, when the cut falls at
      the start of another heading (a word boundary before a word character). */
  lemma HeadingBeforeCut(s: string, kw: string, i: int, k: nat)
    requires Keyword(kw) && HeadingAt(s, kw, i) && i < k <= |s|
    requires k == |s| || (Boundary(s, k) && IsWordChar(s[k]))
    ensures HeadingAt(s[..k], kw, i)
  {
    if k < |s| {
      var n := |kw|;
      if k <= i + n {
        HeadingIsWord(s, kw, i, k - 1 - i);
        if k < i + n {
          HeadingIsWord(s, kw, i, k - i);
        }
      }
      assert i + n < k;
      var t := s[..k];
      assert forall m | 0 <= m < k :: t[m] == s[m];
    } else {
      assert s[..k] == s;
    }
  }

  /** The leftmost heading at or after `i`. */
  function FirstHeadingFrom(s: string, kw: string, i: nat): (r: Option<nat>)
    requires i <= |s|
    ensures r.Some? ==> i <= r.value && HeadingAt(s, kw, r.value)
    ensures r.Some? ==> forall j | i <= j < r.value :: !HeadingAt(s, kw, j)
    ensures r.None? ==> forall j | i <= j :: !HeadingAt(s, kw, j)
    decreases |s| - i
  {
    if HeadingAt(s, kw, i) then Some(i)
    else if i == |s| then None
    else FirstHeadingFrom(s, kw, i + 1)
  }

  /** `re.sub(r'\bKW\b.*', '', s, flags=re.DOTALL | re.IGNORECASE)`: the text
      before the first word-bounded heading, or all of it when there is none. */
  function CutAt(s: string, kw: string): (r: string)
    requires Keyword(kw)
    ensures |r| <= |s| && r == s[..|r|]
    ensures !HasHeading(r, kw)
    ensures !HasHeading(s, kw) ==> r == s
    ensures |r| < |s| ==> HeadingAt(s, kw, |r|)
    ensures forall i | HeadingAt(s, kw, i) :: |r| <= i
  {
    match FirstHeadingFrom(s, kw, 0)
    case None => s
    case Some(i) =>
      var r := s[..i];
      assert !HasHeading(r, kw) by {
        forall j | 0 <= j <= |r|
          ensures !HeadingAt(r, kw, j)
        {
          if HeadingAt(r, kw, j) {
            HeadingIsWord(s, kw, i, 0);
            HeadingInSlice(s, kw, 0, i, j);
          }
        }
      }
      r
  }

  /** Cutting a string that is already free of the heading changes nothing,
      and a second cut at a heading-free point keeps the first heading-free. */
  lemma CutKeepsAbsence(s: string, kw: string, other: string)
    requires Keyword(kw) && Keyword(other)
    requires !HasHeading(s, other)
    ensures !HasHeading(CutAt(s, kw), other)
  {
    var r := CutAt(s, kw);
    if |r| < |s| {
      HeadingIsWord(s, kw, |r|, 0);
      forall j | 0 <= j <= |r|
        ensures !HeadingAt(r, other, j)
      {
        if HeadingAt(r, other, j) {
          HeadingInSlice(s, other, 0, |r|, j);
        }
      }
    }
  }

  /** Stripping whitespace never creates a heading. */
  lemma StripKeepsAbsence(s: string, kw: string)
    requires Keyword(kw)
    requires !HasHeading(s, kw)
    ensures !HasHeading(Strip(s), kw)
  {
    var r := Strip(s);
    var a := StripOffset(s);
    var b := a + |r|;
    assert r == s[a..b];
    assert a == 0 || !IsWordChar(s[a - 1]) by {
      if a > 0 {
        SpaceIsNotWord(s[a - 1]);
      }
    }
    assert b == |s| || !IsWordChar(s[b]) by {
      if b < |s| {
        SpaceIsNotWord(s[b]);
      }
    }
    forall j | 0 <= j <= |r|
      ensures !HeadingAt(r, kw, j)
    {
      if HeadingAt(r, kw, j) {
        HeadingInSlice(s, kw, a, b, j);
      }
    }
  }

  lemma SpaceIsNotWord(c: char)
    ensures IsSpace(c) ==> !IsWordChar(c)
  {
  }

  // ---------------------------------------------------------------------------
  // clean_text
  // ---------------------------------------------------------------------------

  /** `re.sub(r'^\d+\s*$', '', s, flags=re.MULTILINE)` after the collapse has
      removed every newline: the pattern can only match the whole string. */
  predicate IsPageNumber(s: string) {
    var t := TrimEnd(s);
    |t| > 0 && forall i | 0 <= i < |t| :: IsDigit(t[i])
  }

  function DropPageNumber(s: string): string {
    if IsPageNumber(s) then "" else s
  }

  /** Where `clean_text` cuts the collapsed text before the final strip. */
  function CleanCut(raw: string): nat {
    |CutAt(CutAt(DropPageNumber(Collapse(raw)), References), Bibliography)|
  }

  /** `clean_text`: collapse whitespace, drop an all-digit page, cut at the
      first references heading, then at the first bibliography heading, strip. */
  function CleanText(raw: string): string {
    Strip(CutAt(CutAt(DropPageNumber(Collapse(raw)), References), Bibliography))
  }

  /** The cleaned text is collapsed whitespace with no whitespace at either end. */
  lemma CleanTextShape(raw: string)
    ensures Collapsed(CleanText(raw))
    ensures var r := CleanText(raw); |r| > 0 ==> !IsSpace(r[0]) && !IsSpace(r[|r| - 1])
  {
    HeadingKeywords();
    var c := Collapse(raw);
    var u := CutAt(CutAt(DropPageNumber(c), References), Bibliography);
    StripOfPrefixCollapsed(c, u);
  }

  /** No word-bounded references or bibliography heading survives cleaning. */
  lemma CleanTextRemovesHeadings(raw: string)
    ensures !HasHeading(CleanText(raw), References) && !HasHeading(CleanText(raw), Bibliography)
  {
    HeadingKeywords();
    CutsRemoveHeadings(DropPageNumber(Collapse(raw)));
  }

  /** Both cuts together leave neither heading behind. */
  lemma CutsRemoveHeadings(p: string)
    ensures var u := CutAt(CutAt(p, References), Bibliography);
      !HasHeading(Strip(u), References) && !HasHeading(Strip(u), Bibliography)
  {
    var q := CutAt(p, References);
    var u := CutAt(q, Bibliography);
    CutKeepsAbsence(q, Bibliography, References);
    StripKeepsAbsence(u, References);
    StripKeepsAbsence(u, Bibliography);
  }

  lemma StripOfPrefixCollapsed(c: string, u: string)
    requires Collapsed(c)
    requires |u| <= |c| && u == c[..|u|]
    ensures Collapsed(Strip(u))
  {
    CollapsedSlice(c, 0, |u|);
    assert c[0..|u|] == u;
    var r := Strip(u);
    CollapsedSlice(u, StripOffset(u), StripOffset(u) + |r|);
  }

  /** The cleaned text never contains a newline. */
  lemma CleanTextHasNoNewline(raw: string)
    ensures '\n' !in CleanText(raw)
  {
    CleanTextShape(raw);
    CollapsedHasNoNewline(CleanText(raw));
  }

  lemma CollapsedHasNoNewline(s: string)
    requires Collapsed(s)
    ensures '\n' !in s
  {
    forall i | 0 <= i < |s|
      ensures s[i] != '\n'
    {
      if IsSpace(s[i]) {
        assert s[i] == ' ';
      }
    }
  }

  /** `clean_text` only deletes: its result is the strip of a prefix of the
      collapsed text, and that prefix ends at the first references or
      bibliography heading, or at the end when there is none. */
  lemma CleanTextOnlyDeletes(raw: string)
    ensures CleanCut(raw) <= |Collapse(raw)|
    ensures CleanText(raw) == Strip(Collapse(raw)[..CleanCut(raw)])
    ensures forall i | HeadingAt(Collapse(raw), References, i) :: CleanCut(raw) <= i
    ensures forall i | HeadingAt(Collapse(raw), Bibliography, i) :: CleanCut(raw) <= i
    ensures !IsPageNumber(Collapse(raw)) ==>
      || CleanCut(raw) == |Collapse(raw)|
      || HeadingAt(Collapse(raw), References, CleanCut(raw))
      || HeadingAt(Collapse(raw), Bibliography, CleanCut(raw))
    ensures IsPageNumber(Collapse(raw)) ==> CleanText(raw) == ""
  {
    HeadingKeywords();
    var c := Collapse(raw);
    var p := DropPageNumber(c);
    var q := CutAt(p, References);
    var u := CutAt(q, Bibliography);
    if !IsPageNumber(c) {
      assert c[..|u|] == u;
      CutsPrecedeBibliography(c);
      CutsLandOnHeading(c);
    }
  }

  /** The two cuts stop at the end of the text or where a heading starts. */
  lemma CutsLandOnHeading(c: string)
    requires Keyword(References) && Keyword(Bibliography)
    ensures var n := |CutAt(CutAt(c, References), Bibliography)|;
      n == |c| || HeadingAt(c, References, n) || HeadingAt(c, Bibliography, n)
  {
    var q := CutAt(c, References);
    var u := CutAt(q, Bibliography);
    if |u| < |q| {
      if |q| < |c| {
        HeadingIsWord(c, References, |q|, 0);
      }
      assert q == c[..|q|];
      HeadingInSlice(c, Bibliography, 0, |q|, |u|);
    }
  }

  /** The second cut is no later than any bibliography heading of the text
      before the first cut. */
  lemma CutsPrecedeBibliography(c: string)
    requires Keyword(References) && Keyword(Bibliography)
    ensures forall i | HeadingAt(c, Bibliography, i) :: |CutAt(CutAt(c, References), Bibliography)| <= i
  {
    var q := CutAt(c, References);
    var u := CutAt(q, Bibliography);
    forall i | HeadingAt(c, Bibliography, i)
      ensures |u| <= i
    {
      if i < |q| {
        if |q| < |c| {
          HeadingIsWord(c, References, |q|, 0);
        }
        HeadingBeforeCut(c, Bibliography, i, |q|);
      }
    }
  }

  /** Text that is not a bare page number and has no heading loses nothing but
      surrounding whitespace. */
  lemma CleanTextKeepsCleanInput(raw: string)
    requires !IsPageNumber(Collapse(raw))
    requires !HasHeading(Collapse(raw), References) && !HasHeading(Collapse(raw), Bibliography)
    ensures CleanText(raw) == Strip(Collapse(raw))
  {
  }

  /** `clean_text` is not idempotent: a page-like number left in front of a
      references heading survives the first pass and is removed by the second. */
  lemma CleanTextNotIdempotent()
    ensures CleanText("12 References x") == "12"
    ensures CleanText(CleanText("12 References x")) == ""
  {
    CleanFirstPass();
    CleanSecondPass();
  }

  lemma CleanFirstPass()
    ensures CleanText("12 References x") == "12"
  {
    CollapseExample();
    HeadingKeywords();
    FirstPassCuts();
    StripExample();
  }

  lemma FirstPassCuts()
    requires Keyword(References) && Keyword(Bibliography)
    ensures CutAt(CutAt(DropPageNumber("12 References x"), References), Bibliography) == "12 "
  {
    var s := "12 References x";
    assert TrimEnd(s) == s;
    assert !IsDigit(s[2]);
    assert DropPageNumber(s) == s;
    CutExample();
    assert !HasHeading("12 ", Bibliography);
  }

  lemma StripExample()
    ensures Strip("12 ") == "12"
  {
    assert TrimStart("12 ") == "12 ";
    assert TrimEnd("12 ") == "12";
  }

  lemma CollapseExample()
    ensures Collapse("12 References x") == "12 References x"
  {
    var s := "12 References x";
    assert Collapsed(s) by {
      forall i | 0 <= i < |s|
        ensures IsSpace(s[i]) ==> s[i] == ' '
      {
      }
      forall i | 0 <= i < |s| - 1
        ensures !SpacePair(s, i)
      {
      }
    }
    CollapseOfCollapsed(s);
  }

  lemma CutExample()
    ensures CutAt("12 References x", References) == "12 "
  {
    var s := "12 References x";
    assert HeadingAt(s, References, 3) by {
      assert s[3..13] == "References";
      assert forall k | 0 <= k < 10 :: LowerChar(s[3 + k]) == References[k];
      assert Boundary(s, 3);
      assert Boundary(s, 13);
    }
    assert !HeadingAt(s, References, 0) by { assert LowerChar(s[0]) != References[0]; }
    assert !HeadingAt(s, References, 1) by { assert LowerChar(s[1]) != References[0]; }
    assert !HeadingAt(s, References, 2) by { assert LowerChar(s[2]) != References[0]; }
    assert FirstHeadingFrom(s, References, 0) == Some(3);
  }

  lemma CleanSecondPass()
    ensures CleanText("12") == ""
  {
    var d := "12";
    assert Collapsed(d) by {
      assert !SpacePair(d, 0);
    }
    CollapseOfCollapsed(d);
    assert TrimEnd(d) == d;
    assert IsPageNumber(d);
    assert CutAt("", References) == "";
    assert CutAt("", Bibliography) == "";
  }

  // ---------------------------------------------------------------------------
  // extract_main_content (composition policy)
  // ---------------------------------------------------------------------------

  /** `abstract_match.group(1).strip() if abstract_match else ""`. */
  function AbstractText(abstractMatch: Option<string>): string {
    match abstractMatch
    case Some(a) => Strip(a)
    case None => ""
  }

  /** `main_match.group(0) if main_match else ""`. */
  function MainText(mainMatch: Option<string>): string {
    mainMatch.GetOr("")
  }

  /** `extract_main_content` once its two regex searches have run: the labelled
      abstract and main span when found, otherwise the first 3000 characters. */
  function ComposeSections(text: string, abstractMatch: Option<string>, mainMatch: Option<string>): (r: string)
    ensures var a := AbstractText(abstractMatch);
      a != "" ==> StartsWith(r, AbstractLabel) && OccursAt(r, a, |AbstractLabel|)
    ensures var a, m := AbstractText(abstractMatch), MainText(mainMatch);
      a != "" && m != "" ==> OccursAt(r, MainLabel, |AbstractLabel| + |a|)
    ensures var a, m := AbstractText(abstractMatch), MainText(mainMatch);
      a != "" && m != "" ==> |r| == |AbstractLabel| + |a| + |MainLabel| + |m|
    ensures var m := MainText(mainMatch);
      m != "" ==> EndsWith(r, m)
    ensures var a, m := AbstractText(abstractMatch), MainText(mainMatch);
      a == "" && m != "" ==> r == m
    ensures var a, m := AbstractText(abstractMatch), MainText(mainMatch);
      a != "" && m == "" ==> |r| == |AbstractLabel| + |a|
    ensures var a, m := AbstractText(abstractMatch), MainText(mainMatch);
      a == "" && m == "" ==> StartsWith(text, r) && |r| == Min(FallbackChars, |text|)
  {
    var a := AbstractText(abstractMatch);
    var m := MainText(mainMatch);
    if a != "" && m != "" then
      LabelledParts(AbstractLabel, a, MainLabel, m);
      AbstractLabel + a + MainLabel + m
    else if a != "" then
      LabelledParts(AbstractLabel, a, "", "");
      assert AbstractLabel + a + "" + "" == AbstractLabel + a;
      AbstractLabel + a
    else if m != "" then m
    else text[..Min(FallbackChars, |text|)]
  }

  /** Where the parts of `l + a + k + m` sit. */
  lemma LabelledParts(l: string, a: string, k: string, m: string)
    ensures var r := l + a + k + m;
      && StartsWith(r, l) && OccursAt(r, a, |l|) && OccursAt(r, k, |l| + |a|)
      && EndsWith(r, m) && |r| == |l| + |a| + |k| + |m|
  {
    var r := l + a + k + m;
    assert r[..|l|] == l;
    assert r[|l|..|l| + |a|] == a;
    assert r[|l| + |a|..|l| + |a| + |k|] == k;
    assert r[|r| - |m|..] == m;
  }

  // ---------------------------------------------------------------------------
  // smart_truncate
  // ---------------------------------------------------------------------------

  /** The summed token counts of the pieces. */
  function SumCounts(ps: seq<string>, count: string -> nat): nat {
    if |ps| == 0 then 0 else count(ps[0]) + SumCounts(ps[1..], count)
  }

  /** Each piece followed by a period, concatenated. */
  function Sentences(ps: seq<string>): string {
    if |ps| == 0 then "" else ps[0] + "." + Sentences(ps[1..])
  }

  lemma {:induction false} SumCountsSnoc(ps: seq<string>, x: string, count: string -> nat)
    ensures SumCounts(ps + [x], count) == SumCounts(ps, count) + count(x)
  {
    if |ps| > 0 {
      assert (ps + [x])[1..] == ps[1..] + [x];
      SumCountsSnoc(ps[1..], x, count);
    } else {
      assert ps + [x] == [x];
    }
  }

  /** Summed counts only grow as more pieces are taken. */
  lemma {:induction false} SumCountsMonotone(ps: seq<string>, i: nat, j: nat, count: string -> nat)
    requires i <= j <= |ps|
    ensures SumCounts(ps[..i], count) <= SumCounts(ps[..j], count)
    decreases j - i
  {
    if i < j {
      SumCountsMonotone(ps, i, j - 1, count);
      assert ps[..j] == ps[..j - 1] + [ps[j - 1]];
      SumCountsSnoc(ps[..j - 1], ps[j - 1], count);
    }
  }

  /** The accumulation loop of `smart_truncate` from piece `i` on, with `used`
      tokens already accepted: the number of leading pieces it keeps. */
  function FitFrom(ps: seq<string>, count: string -> nat, budget: int, i: nat, used: nat): (k: nat)
    requires i <= |ps| && used == SumCounts(ps[..i], count) && used <= budget
    ensures i <= k <= |ps|
    ensures SumCounts(ps[..k], count) <= budget
    ensures k < |ps| ==> SumCounts(ps[..k + 1], count) > budget
    decreases |ps| - i
  {
    if i == |ps| then i
    else
      assert ps[..i + 1] == ps[..i] + [ps[i]];
      SumCountsSnoc(ps[..i], ps[i], count);
      if used + count(ps[i]) > budget then i
      else FitFrom(ps, count, budget, i + 1, used + count(ps[i]))
  }

  /** How many leading pieces fit in the budget: the loop stops at the first
      piece that would overflow it. */
  function FitCount(ps: seq<string>, count: string -> nat, budget: int): (k: nat)
    ensures k <= |ps|
    ensures k == 0 || SumCounts(ps[..k], count) <= budget
    ensures k < |ps| ==> SumCounts(ps[..k + 1], count) > budget
  {
    if budget < 0 then 0
    else
      assert ps[..0] == [];
      FitFrom(ps, count, budget, 0, 0)
  }

  /** The kept prefix is the longest one within budget. */
  lemma FitCountIsLongest(ps: seq<string>, count: string -> nat, budget: int, j: nat)
    requires FitCount(ps, count, budget) < j <= |ps|
    ensures SumCounts(ps[..j], count) > budget
  {
    SumCountsMonotone(ps, FitCount(ps, count, budget) + 1, j, count);
  }

  /** `smart_truncate(text, max_tokens)`: the text itself when it fits,
      otherwise the leading '.'-pieces whose summed counts fit, each followed
      by a period. */
  function SmartTruncate(text: string, count: string -> nat, maxTokens: int): (r: string)
    ensures count(text) <= maxTokens ==> r == text
  {
    if count(text) <= maxTokens then text
    else
      var ps := Split(text, ".");
      Sentences(ps[..FitCount(ps, count, maxTokens)])
  }

  lemma {:induction false} SentencesPrefix(ps: seq<string>, k: nat)
    requires 1 <= |ps| && k <= |ps|
    ensures StartsWith(Join(".", ps) + ".", Sentences(ps[..k]))
  {
    if k > 0 {
      assert ps[..k][1..] == ps[1..][..k - 1];
      if |ps| == 1 {
        assert ps[..k] == [ps[0]];
        assert Sentences([ps[0]]) == ps[0] + "." + Sentences([]);
      } else {
        SentencesPrefix(ps[1..], k - 1);
        assert Join(".", ps) + "." == ps[0] + "." + (Join(".", ps[1..]) + ".");
      }
    }
  }

  /** A truncated result is a prefix of the text followed by a period: only
      whole sentences are kept, in order, and it ends with a period unless empty. */
  lemma SmartTruncateKeepsPrefix(text: string, count: string -> nat, maxTokens: int)
    ensures StartsWith(text + ".", SmartTruncate(text, count, maxTokens))
  {
    if count(text) > maxTokens {
      var ps := Split(text, ".");
      SentencesPrefix(ps, FitCount(ps, count, maxTokens));
    } else {
      assert (text + ".")[..|text|] == text;
    }
  }

  /** The budget binds the summed counts of the kept pieces, and the piece that
      follows them would overflow it. */
  lemma SmartTruncateBudget(text: string, count: string -> nat, maxTokens: int) returns (k: nat)
    requires count(text) > maxTokens
    ensures k <= |Split(text, ".")|
    ensures SmartTruncate(text, count, maxTokens) == Sentences(Split(text, ".")[..k])
    ensures k == 0 || SumCounts(Split(text, ".")[..k], count) <= maxTokens
    ensures k < |Split(text, ".")| ==> SumCounts(Split(text, ".")[..k + 1], count) > maxTokens
  {
    k := FitCount(Split(text, "."), count, maxTokens);
  }

  /** The budget is on the summed piece counts, not on the count of the result:
      with a counter that charges only long strings, "a.b" is truncated to
      "a.b.", which counts more than the budget. */
  lemma SmartTruncateMayExceedBudget()
    ensures var count := (s: string) => if |s| >= 3 then 1000 else 0;
      count(SmartTruncate("a.b", count, 10)) > 10
  {
    var count := (s: string) => if |s| >= 3 then 1000 else 0;
    assert !Contains("b", ".") by {
      assert "b"[0..1][0] == 'b';
      assert !OccursAt("b", ".", 0);
    }
    assert !Contains("a", ".") by {
      assert "a"[0..1][0] == 'a';
      assert !OccursAt("a", ".", 0);
    }
    SplitCharCons("a", ".", "b");
    assert "a" + "." + "b" == "a.b";
    var ps := Split("a.b", ".");
    assert ps == ["a", "b"];
    assert ps[..2] == ps;
    assert SumCounts(ps, count) == 0;
    assert FitCount(ps, count, 10) == 2;
    assert SmartTruncate("a.b", count, 10) == "a.b.";
  }

  // ---------------------------------------------------------------------------
  // extract_text_from_pdf, the endpoints and the summary gate
  // ---------------------------------------------------------------------------

  /** The two regex searches of `extract_main_content`, on the cleaned text. */
  datatype SectionFinder = SectionFinder(abstractOf: string -> Option<string>, mainOf: string -> Option<string>)

  /** The page texts, each followed by a newline. */
  function RawText(pages: seq<string>): (r: string)
    ensures r == "" <==> pages == []
    ensures pages != [] ==> StartsWith(r, pages[0] + "\n") && EndsWith(r, pages[|pages| - 1] + "\n")
  {
    if |pages| == 0 then ""
    else
      var rest := RawText(pages[1..]);
      var r := pages[0] + "\n" + rest;
      assert r[..|pages[0]| + 1] == pages[0] + "\n";
      if |pages| == 1 then
        assert rest == "";
        r
      else
        assert pages[1..][|pages[1..]| - 1] == pages[|pages| - 1];
        assert r[|r| - |rest|..] == rest;
        r
  }

  /** One turn of the page loop: `raw_text += page.get_text() + "\n"` appends
      the page and a newline to what the earlier pages gave. */
  lemma {:induction false} RawTextStep(pages: seq<string>, page: string)
    ensures RawText(pages + [page]) == RawText(pages) + page + "\n"
    decreases |pages|
  {
    if |pages| == 0 {
      assert pages + [page] == [page];
    } else {
      assert (pages + [page])[1..] == pages[1..] + [page];
      RawTextStep(pages[1..], page);
    }
  }

  function MainContent(pages: seq<string>, finder: SectionFinder): string {
    var cleaned := CleanText(RawText(pages));
    ComposeSections(cleaned, finder.abstractOf(cleaned), finder.mainOf(cleaned))
  }

  /** `extract_text_from_pdf`: the composed main content, or an error when the
      document cannot be read or the content is under 100 characters once stripped. */
  function ExtractTextFromPdf(doc: Result<seq<string>>, finder: SectionFinder): (r: Result<string>)
    ensures r.Ok? ==> |Strip(r.value)| >= MinExtractedChars
    ensures r.Ok? <==> doc.Ok? && |Strip(MainContent(doc.value, finder))| >= MinExtractedChars
    ensures r.Ok? ==> r.value == MainContent(doc.value, finder)
    ensures doc.Err? ==> r == Err(ExtractionPrefix + doc.error)
    ensures doc.Ok? && r.Err? ==> r == Err(ExtractionPrefix + TooShort)
  {
    match doc
    case Err(e) => Err(ExtractionPrefix + e)
    case Ok(pages) =>
      var content := MainContent(pages, finder);
      if |Strip(content)| < MinExtractedChars then Err(ExtractionPrefix + TooShort)
      else Ok(content)
  }

  /** The path check shared by both endpoints. */
  predicate ValidPdfPath(path: string) {
    path != "" && EndsWith(Lower(path), ".pdf")
  }

  /** The `/extract_text` endpoint. */
  function ExtractTextEndpoint(path: string, doc: Result<seq<string>>, finder: SectionFinder): (r: Result<string>)
    ensures !ValidPdfPath(path) ==> r == Err(PathError)
    ensures ValidPdfPath(path) ==> r == ExtractTextFromPdf(doc, finder)
  {
    if !ValidPdfPath(path) then Err(PathError) else ExtractTextFromPdf(doc, finder)
  }

  /** The quality gate on the decoded summary: kept, stripped, when it has at
      least 30 words, otherwise replaced by the fixed fallback message. */
  function SummaryGate(decoded: string): (r: string)
    ensures r == FallbackSummary || (r == Strip(decoded) && |Words(r)| >= MinSummaryWords)
    ensures |Words(Strip(decoded))| >= MinSummaryWords ==> r == Strip(decoded)
    ensures |Words(Strip(decoded))| < MinSummaryWords ==> r == FallbackSummary
  {
    var s := Strip(decoded);
    if s == "" || |Words(s)| < MinSummaryWords then FallbackSummary else s
  }

  /** The `/summarize_paper` endpoint: path check, extraction, truncation to the
      900-token budget, generation, quality gate. */
  function SummarizePaper(path: string, doc: Result<seq<string>>, finder: SectionFinder,
                          count: string -> nat, generate: string -> Result<string>): (r: Result<string>)
    ensures !ValidPdfPath(path) ==> r == Err(PathError)
    ensures r.Ok? ==> |Words(r.value)| >= MinSummaryWords || r.value == FallbackSummary
    ensures ValidPdfPath(path) ==>
      (r.Ok? <==> ExtractTextFromPdf(doc, finder).Ok?
                  && generate(SmartTruncate(ExtractTextFromPdf(doc, finder).value, count, InputTokenBudget)).Ok?)
    ensures r.Ok? ==>
      && ValidPdfPath(path) && ExtractTextFromPdf(doc, finder).Ok?
      && var out := generate(SmartTruncate(ExtractTextFromPdf(doc, finder).value, count, InputTokenBudget));
         out.Ok? && r.value == SummaryGate(out.value)
    ensures ValidPdfPath(path) && ExtractTextFromPdf(doc, finder).Err? ==>
      r == Err(SummarizationPrefix + ExtractTextFromPdf(doc, finder).error)
    ensures ValidPdfPath(path) && ExtractTextFromPdf(doc, finder).Ok? ==>
      var out := generate(SmartTruncate(ExtractTextFromPdf(doc, finder).value, count, InputTokenBudget));
      out.Err? ==> r == Err(SummarizationPrefix + out.error)
  {
    if !ValidPdfPath(path) then Err(PathError)
    else
      match ExtractTextFromPdf(doc, finder)
      case Err(e) => Err(SummarizationPrefix + e)
      case Ok(text) =>
        match generate(SmartTruncate(text, count, InputTokenBudget))
        case Err(e) => Err(SummarizationPrefix + e)
        case Ok(decoded) => Ok(SummaryGate(decoded))
  }
}
