/** The reviewer service's decision logic: validate the request, run the
    keyword heuristic, answer without the model when too much is missing,
    otherwise clean up and judge the model's text, combine it with the
    heuristic's labels and trim the result.

    The tokenizer-based shortening of the original (`truncate_text`) and the
    language model are parameters; everything else is modelled as written. */
module Reviewer {

  import opened Results
  import opened Text

  // ---------------------------------------------------------------------------
  // Constants
  // ---------------------------------------------------------------------------

  const MethodologyLabel := "methodology description"
  const ResultsLabel := "key results or findings"
  const ObjectivesLabel := "research objectives"
  const SignificanceLabel := "research significance"
  const DetailLabel := "sufficient detail"

  /** Every label the heuristic can report, in the order it reports them. */
  const Labels: seq<string> := [MethodologyLabel, ResultsLabel, ObjectivesLabel, SignificanceLabel, DetailLabel]

  /** The keyword family whose absence raises each of the first four labels. */
  const Families: seq<seq<string>> := [
    ["method", "approach", "technique", "algorithm", "framework"],
    ["result", "finding", "performance", "outcome", "achieve"],
    ["objective", "goal", "purpose", "problem", "address"],
    ["significant", "important", "novel", "contribution", "advance"]
  ]

  /** Fewer words than this raise the "sufficient detail" label. */
  const MinDetailWords := 25
  /** This many labels or more and the model is not consulted. */
  const ShortCircuitLabels := 3
  const MinOriginalChars := 100
  const ExcerptChars := 600
  /** Accepted model text has more words than this ... */
  const MinAcceptedWords := 8
  /** ... and fewer characters than this. */
  const MaxAcceptedChars := 250
  /** Feedback longer than this is cut to two sentences. */
  const TrimThreshold := 200

  /** The prefixes of the prompt the model may echo, in the order they are tried. */
  const Markers: seq<string> := ["Response:", "Answer:", "Review:", "Missing elements:", "Evaluation:"]
  const RefusalPhrases: seq<string> := ["i cannot", "as an ai", "original paper excerpt"]

  const RequiredMsg := "Original text and summary are required."
  const EmptyMsg := "Original text and summary cannot be empty."
  const TooShortMsg := "Original text is too short for review."
  const MissingPrefix := "Missing elements: "
  const LabelSeparator := ", "
  const ShortCircuitTail := ". The summary needs more comprehensive coverage of the research."
  const CoversMost := "Summary covers most essential elements but could benefit from more specific details."
  const AnalysisUnavailable := "Summary appears adequate but detailed analysis unavailable."
  const SentenceSeparator := ". "

  const PromptHead :=
    "You are an expert academic reviewer. "
    + "Evaluate this research paper summary by checking if it includes these essential elements:\n\n"
    + "1. Research Problem/Objective: What problem does the paper solve?\n"
    + "2. Methodology: What approach or methods were used?\n"
    + "3. Key Results: What were the main findings or outcomes?\n"
    + "4. Contributions: What new knowledge or improvements does this provide?\n"
    + "5. Significance: Why is this work important?\n\n"
    + "ORIGINAL PAPER EXCERPT:\n"
  const PromptMiddle := "\n\nSUMMARY TO EVALUATE:\n"
  const PromptTail :=
    "\n\n"
    + "TASK: Identify what important information is missing from the summary. "
    + "Be specific about which elements are absent or unclear.\n\n"
    + "If the summary covers all key aspects well, respond: "
    + "\"Summary adequately covers the essential research elements.\"\n\n"
    + "If elements are missing, list them specifically like: "
    + "\"Missing elements: [specific items]\"\n\n"
    + "Response:"

  // ---------------------------------------------------------------------------
  // check_summary_basic_quality
  // ---------------------------------------------------------------------------

  /** `any(word in text for word in words)`. */
  predicate AnyIn(words: seq<string>, text: string) {
    exists k | 0 <= k < |words| :: Contains(text, words[k])
  }

  /** Which labels the heuristic raises, one flag per label. */
  function QualityFlags(summary: string): (r: seq<bool>)
    ensures |r| == |Labels|
    ensures forall f | 0 <= f < |Families| :: r[f] == !AnyIn(Families[f], Lower(summary))
    ensures r[4] == (|Words(summary)| < MinDetailWords)
  {
    var low := Lower(summary);
    seq(|Labels|, f requires 0 <= f < |Labels| =>
      if f < |Families| then !AnyIn(Families[f], low) else |Words(summary)| < MinDetailWords)
  }

  lemma LabelsDistinct()
    ensures forall i, j | 0 <= i < j < |Labels| :: Labels[i] != Labels[j]
  {
    assert Labels[0][0] == 'm' && Labels[1][0] == 'k' && Labels[4][0] == 's';
    assert Labels[2][9] == 'o' && Labels[3][9] == 's';
  }

  /** `check_summary_basic_quality`: the missing-element labels, in fixed
      order; a family's label is reported exactly when none of its keywords
      occurs in the lower-cased summary, and "sufficient detail" exactly when
      the summary has fewer than 25 words. */
  function BasicQuality(summary: string): (r: seq<string>)
    ensures IsSubsequence(r, Labels)
    ensures forall f | 0 <= f < |Families| :: Labels[f] in r <==> !AnyIn(Families[f], Lower(summary))
    ensures DetailLabel in r <==> |Words(summary)| < MinDetailWords
    ensures forall x | x in r :: x in Labels
  {
    var flags := QualityFlags(summary);
    LabelsDistinct();
    KeepSelects(Labels, flags);
    assert DetailLabel == Labels[4];
    Keep(Labels, flags)
  }

  // ---------------------------------------------------------------------------
  // create_review_prompt
  // ---------------------------------------------------------------------------

  /** `create_review_prompt(excerptSource, summary)`: the fixed instructions
      around the first 600 characters of the (already shortened) original and
      the whole summary. */
  function ReviewPrompt(excerptSource: string, summary: string): (r: string)
    ensures var n := Min(ExcerptChars, |excerptSource|);
      && StartsWith(r, PromptHead + excerptSource[..n] + PromptMiddle)
      && OccursAt(r, summary, |PromptHead| + n + |PromptMiddle|)
      && EndsWith(r, summary + PromptTail)
      && |r| == |PromptHead| + n + |PromptMiddle| + |summary| + |PromptTail|
  {
    var excerpt := excerptSource[..Min(ExcerptChars, |excerptSource|)];
    ConcatParts(PromptHead, excerpt, PromptMiddle, summary, PromptTail);
    PromptHead + excerpt + PromptMiddle + summary + PromptTail
  }

  // ---------------------------------------------------------------------------
  // Cleaning up the model's text
  // ---------------------------------------------------------------------------

  /** `s.split(m)[-1]`: what follows the last occurrence of `m`. */
  function AfterLast(s: string, m: string): (r: string)
    requires |m| > 0
    ensures !Contains(r, m)
    ensures !Contains(s, m) ==> r == s
  {
    var ps := Split(s, m);
    ps[|ps| - 1]
  }

  /** When `m` occurs, `s` ends with `m` followed by the text after its last occurrence. */
  lemma AfterLastFollowsMarker(s: string, m: string)
    requires |m| > 0 && Contains(s, m)
    ensures EndsWith(s, m + AfterLast(s, m))
  {
    var ps := Split(s, m);
    var i := JoinedPieceFollowsSep(s, m, ps, |ps| - 1);
    EndsAt(s, m + ps[|ps| - 1], i);
  }

  lemma EndsAt(s: string, x: string, i: nat)
    requires OccursAt(s, x, i) && i + |x| == |s|
    ensures EndsWith(s, x)
  {
    assert s[|s| - |x|..] == s[i..i + |x|];
  }

  /** The index of the first marker present in `out`, or `|markers|`. */
  function FirstMarker(out: string, markers: seq<string>): (r: nat)
    ensures r <= |markers|
    ensures forall k | 0 <= k < r :: !Contains(out, markers[k])
    ensures r < |markers| ==> Contains(out, markers[r])
  {
    if |markers| == 0 then 0
    else if Contains(out, markers[0]) then 0
    else 1 + FirstMarker(out, markers[1..])
  }

  /** The marker loop: for the first marker present, keep what follows its
      last occurrence, stripped; with no marker the text is left alone.  The
      result is a piece of the model's text, and once a marker has been used
      the result no longer contains it. */
  function StripMarkers(out: string): (r: string)
    ensures FirstMarker(out, Markers) == |Markers| ==> r == out
    ensures var k := FirstMarker(out, Markers);
      k < |Markers| ==> r == Strip(AfterLast(out, Markers[k]))
    ensures var k := FirstMarker(out, Markers);
      k < |Markers| ==> !Contains(r, Markers[k]) && (|r| > 0 ==> !IsSpace(r[0]) && !IsSpace(r[|r| - 1]))
    ensures Contains(out, r)
  {
    var k := FirstMarker(out, Markers);
    if k == |Markers| then
      assert OccursAt(out, out, 0);
      out
    else
      StrippedTail(out, Markers[k]);
      Strip(AfterLast(out, Markers[k]))
  }

  lemma StripAvoids(s: string, m: string)
    requires !Contains(s, m)
    ensures !Contains(Strip(s), m)
  {
    var o := StripOffset(s);
    ContainsFromSlice(s, m, o, o + |Strip(s)|);
  }

  /** The stripped text after the last `m` is a piece of `out` free of `m`. */
  lemma StrippedTail(out: string, m: string)
    requires |m| > 0 && Contains(out, m)
    ensures !Contains(Strip(AfterLast(out, m)), m)
    ensures Contains(out, Strip(AfterLast(out, m)))
  {
    var tail := AfterLast(out, m);
    StripAvoids(tail, m);
    AfterLastFollowsMarker(out, m);
    StripOfMarkedSuffix(out, m, tail);
  }

  lemma StripOfMarkedSuffix(out: string, m: string, tail: string)
    requires EndsWith(out, m + tail)
    ensures Contains(out, Strip(tail))
  {
    var r := Strip(tail);
    var o := StripOffset(tail);
    var at := |out| - |m + tail|;
    assert OccursAt(out, m + tail, at);
    assert OccursAt(tail, r, o);
    OccursWithin(out, m, tail, at, r, o);
  }

  /** A marker whose first character does not recur in it: two of its
      occurrences cannot overlap. */
  predicate FirstCharUnique(m: string) {
    |m| > 0 && forall k | 0 < k < |m| :: m[k] != m[0]
  }

  /** A later occurrence of such a marker starts after an earlier one ends. */
  lemma NoOverlap(s: string, m: string, i: nat, q: nat)
    requires FirstCharUnique(m) && OccursAt(s, m, i) && i < q
    ensures OccursAt(s, m, q) ==> i + |m| <= q
  {
    assert q < i + |m| ==> m[q - i] == s[q];
    assert OccursAt(s, m, q) ==> m[0] == s[q];
  }

  /** An occurrence at or after `b` is an occurrence in `s[b..]`. */
  lemma OccursInSuffix(s: string, m: string, q: nat, b: nat)
    ensures b <= q && OccursAt(s, m, q) ==> OccursAt(s[b..], m, q - b)
  {
    if b <= q && OccursAt(s, m, q) {
      assert s[b..][q - b..q - b + |m|] == s[q..q + |m|];
    }
  }

  /** Splitting drops everything up to and including the leftmost occurrence. */
  lemma AfterLastStep(s: string, m: string)
    requires |m| > 0 && Contains(s, m)
    ensures AfterLast(s, m) == AfterLast(s[Find(s, m).value + |m|..], m)
  {
    var i := Find(s, m).value;
    assert Split(s, m) == [s[..i]] + Split(s[i + |m|..], m);
  }

  /** The text after the last split piece boundary is the text after the last
      occurrence, for a marker whose occurrences cannot overlap. */
  lemma {:induction false} AfterLastOccurrence(s: string, m: string, q: nat)
    requires FirstCharUnique(m) && OccursAt(s, m, q)
    requires forall j | q < j :: !OccursAt(s, m, j)
    ensures AfterLast(s, m) == s[q + |m|..]
    decreases |s|
  {
    var i := Find(s, m).value;
    var rest := s[i + |m|..];
    AfterLastStep(s, m);
    if i == q {
      NothingAfterLast(s, m, q);
    } else {
      NoOverlap(s, m, i, q);
      var q' := q - i - |m|;
      OccursInSuffix(s, m, q, i + |m|);
      forall k | q' < k
        ensures !OccursAt(rest, m, k)
      {
        OccursFromSuffix(s, m, i + |m|, k);
      }
      AfterLastOccurrence(rest, m, q');
      assert rest[q' + |m|..] == s[q + |m|..];
    }
  }

  lemma OccursFromSuffix(s: string, m: string, b: nat, k: nat)
    requires b <= |s|
    ensures OccursAt(s[b..], m, k) ==> OccursAt(s, m, b + k)
  {
    if OccursAt(s[b..], m, k) {
      assert s[b..][k..k + |m|] == s[b + k..b + k + |m|];
    }
  }

  /** With no occurrence after `q`, the text after `q`'s occurrence holds none. */
  lemma NothingAfterLast(s: string, m: string, q: nat)
    requires |m| > 0 && OccursAt(s, m, q)
    requires forall j | q < j :: !OccursAt(s, m, j)
    ensures !Contains(s[q + |m|..], m)
  {
    var t := s[q + |m|..];
    forall k | 0 <= k
      ensures !OccursAt(t, m, k)
    {
      OccursFromSuffix(s, m, q + |m|, k);
    }
  }

  /** When `p` ends with such a marker and `a` does not contain it, the text
      after the last marker of `p + a` is exactly `a`. */
  lemma AfterLastOfMarkedSuffix(p: string, a: string, m: string)
    requires FirstCharUnique(m) && EndsWith(p, m) && !Contains(a, m)
    ensures AfterLast(p + a, m) == a
  {
    var s := p + a;
    var q := |p| - |m|;
    assert OccursAt(s, m, q) by {
      assert s[q..|p|] == p[q..];
    }
    forall j | q < j
      ensures !OccursAt(s, m, j)
    {
      NoOverlap(s, m, q, j);
      OccursInSuffix(s, m, j, |p|);
      assert s[|p|..] == a;
    }
    AfterLastOccurrence(s, m, q);
    assert s[q + |m|..] == a;
  }

  /** No marker can overlap itself. */
  lemma MarkersFirstCharUnique()
    ensures forall k | 0 <= k < |Markers| :: FirstCharUnique(Markers[k])
  {
    assert FirstCharUnique("Response:");
    assert FirstCharUnique("Answer:");
    assert FirstCharUnique("Review:");
    assert FirstCharUnique("Missing elements:");
    assert FirstCharUnique("Evaluation:");
  }

  /** The marker loop keeps exactly the stripped text after the last
      occurrence of the first marker present. */
  lemma StripMarkersKeepsTextAfterLast(out: string, k: nat, q: nat)
    requires k == FirstMarker(out, Markers) && k < |Markers|
    requires OccursAt(out, Markers[k], q)
    requires forall j | q < j :: !OccursAt(out, Markers[k], j)
    ensures StripMarkers(out) == Strip(out[q + |Markers[k]|..])
  {
    var m := Markers[k];
    MarkersFirstCharUnique();
    AfterLastOccurrence(out, m, q);
    assert AfterLast(out, m) == out[q + |m|..];
  }

  /** A model that echoes the prompt before its answer has the echo removed:
      the prompt ends with the first marker, so only the answer is kept. */
  lemma EchoedPromptIsRemoved(excerptSource: string, summary: string, answer: string)
    requires !Contains(answer, Markers[0])
    ensures StripMarkers(ReviewPrompt(excerptSource, summary) + answer) == Strip(answer)
  {
    var p := ReviewPrompt(excerptSource, summary);
    var m := Markers[0];
    assert FirstCharUnique(m);
    assert EndsWith(p, m) by {
      assert EndsWith(PromptTail, m);
      assert p[|p| - |m|..] == PromptTail[|PromptTail| - |m|..];
    }
    assert OccursAt(p + answer, m, |p| - |m|) by {
      assert (p + answer)[|p| - |m|..|p|] == p[|p| - |m|..];
    }
    assert FirstMarker(p + answer, Markers) == 0;
    AfterLastOfMarkedSuffix(p, answer, m);
  }

  // ---------------------------------------------------------------------------
  // Judging and combining
  // ---------------------------------------------------------------------------

  /** The acceptance test on the cleaned model text. */
  predicate Acceptable(text: string) {
    && text != ""
    && |Words(text)| > MinAcceptedWords
    && |text| < MaxAcceptedChars
    && !AnyIn(RefusalPhrases, Lower(text))
  }

  /** `f"Missing elements: {', '.join(labels)}"`. */
  function MissingList(labels: seq<string>): string {
    MissingPrefix + Join(LabelSeparator, labels)
  }

  /** The feedback before trimming, from the labels and the model's outcome
      (`Err` when generation raised).  Labels, when there are any, always lead;
      the model's text appears only when it passed the acceptance test. */
  function Combine(labels: seq<string>, model: Result<string>): (r: string)
    ensures labels != [] ==> StartsWith(r, MissingList(labels) + ".")
    ensures model.Ok? && Acceptable(StripMarkers(model.value)) ==>
      EndsWith(r, StripMarkers(model.value))
      && (labels == [] ==> r == StripMarkers(model.value))
      && (labels != [] ==> r == MissingList(labels) + ". " + StripMarkers(model.value))
    ensures model.Ok? && !Acceptable(StripMarkers(model.value)) ==>
      r == if labels != [] then MissingList(labels) + "." else CoversMost
    ensures model.Err? ==>
      r == if labels != [] then MissingList(labels) + "." else AnalysisUnavailable
  {
    var head := MissingList(labels) + ".";
    match model
    case Ok(raw) =>
      var text := StripMarkers(raw);
      if Acceptable(text) then
        if labels != [] then
          SpaceJoin(MissingList(labels), text);
          MissingList(labels) + ". " + text
        else
          text
      else if labels != [] then head
      else CoversMost
    case Err(_) =>
      if labels != [] then head else AnalysisUnavailable
  }

  /** A sentence, `". "`, then more text: the sentence and its `.` lead, the text ends. */
  lemma SpaceJoin(head: string, text: string)
    ensures StartsWith(head + ". " + text, head + ".") && EndsWith(head + ". " + text, text)
  {
    var r := head + ". " + text;
    assert r[..|head| + 1] == head + ".";
    assert r[|r| - |text|..] == text;
  }

  // ---------------------------------------------------------------------------
  // Final trim
  // ---------------------------------------------------------------------------

  /** A kept sentence: non-empty, without `.`, and without whitespace at its ends. */
  predicate Sentence(x: string) {
    x != "" && '.' !in x && !IsSpace(x[0]) && !IsSpace(x[|x| - 1])
  }

  /** The stripped pieces that are not blank, in order. */
  function NonBlankStripped(ps: seq<string>): (r: seq<string>)
    ensures |r| <= |ps|
  {
    if |ps| == 0 then []
    else
      var x := Strip(ps[0]);
      (if x != "" then [x] else []) + NonBlankStripped(ps[1..])
  }

  /** `f.split('.')[:2]`. */
  function FirstTwoPieces(f: string): (r: seq<string>)
    ensures 1 <= |r| <= 2
    ensures forall k | 0 <= k < |r| :: '.' !in r[k]
  {
    var ps := Split(f, ".");
    var r := ps[..Min(2, |ps|)];
    forall k | 0 <= k < |r| ensures '.' !in r[k] {
      CharContained(r[k], ".");
    }
    r
  }

  /** The first two `.`-pieces of the feedback, stripped, blanks dropped. */
  function KeptSentences(f: string): seq<string> {
    NonBlankStripped(FirstTwoPieces(f))
  }

  /** The last step of the review: feedback of at most 200 characters is left
      alone; longer feedback is cut to its first two sentences. */
  function FinalTrim(f: string): (r: string)
    ensures |f| <= TrimThreshold ==> r == f
    ensures |f| > TrimThreshold && r != "" ==> EndsWith(r, ".")
  {
    if |f| <= TrimThreshold then f
    else Punctuate(Join(SentenceSeparator, KeptSentences(f)))
  }

  /** A final `.` added to non-empty text that lacks one. */
  function Punctuate(x: string): (r: string)
    ensures r != "" ==> EndsWith(r, ".")
    ensures x != "" && !EndsWith(x, ".") ==> r == x + "."
    ensures x == "" || EndsWith(x, ".") ==> r == x
  {
    if x != "" && !EndsWith(x, ".") then x + "." else x
  }

  /** One or two sentences joined and punctuated. */
  lemma PunctuatedSentences(kept: seq<string>)
    requires |kept| <= 2 && forall k | 0 <= k < |kept| :: Sentence(kept[k])
    ensures |kept| == 0 ==> Punctuate(Join(SentenceSeparator, kept)) == ""
    ensures |kept| == 1 ==> Punctuate(Join(SentenceSeparator, kept)) == kept[0] + "."
    ensures |kept| == 2 ==> Punctuate(Join(SentenceSeparator, kept)) == kept[0] + SentenceSeparator + kept[1] + "."
  {
    if |kept| == 1 {
      JoinOne(SentenceSeparator, kept);
      PunctuateUnpunctuated(kept[0]);
    } else if |kept| == 2 {
      JoinTwo(SentenceSeparator, kept);
      var y := kept[1];
      var j := kept[0] + SentenceSeparator + y;
      assert j[|j| - 1] == y[|y| - 1];
      PunctuateUnpunctuated(j);
    }
  }

  lemma PunctuateOne(x: string)
    requires Sentence(x)
    ensures Punctuate(Join(SentenceSeparator, [x])) == x + "."
  {
    JoinOne(SentenceSeparator, [x]);
    PunctuateUnpunctuated(x);
  }

  lemma PunctuateTwo(x: string, y: string)
    requires Sentence(x) && Sentence(y)
    ensures Punctuate(Join(SentenceSeparator, [x, y])) == x + SentenceSeparator + y + "."
  {
    JoinTwo(SentenceSeparator, [x, y]);
    var j := x + SentenceSeparator + y;
    assert j[|j| - 1] == y[|y| - 1];
    PunctuateUnpunctuated(j);
  }

  lemma PunctuateUnpunctuated(x: string)
    requires x != "" && x[|x| - 1] != '.'
    ensures Punctuate(x) == x + "."
  {
    assert !EndsWith(x, ".") by {
      assert x[|x| - 1..] != ".";
    }
  }

  /** Stripping a piece without `.` leaves a sentence, or nothing. */
  lemma StrippedPiece(p: string)
    requires '.' !in p
    ensures Strip(p) == "" || Sentence(Strip(p))
  {
    SliceIsSentence(p, StripOffset(p), Strip(p));
  }

  /** A slice of a string without `.`, with no whitespace at either end. */
  lemma SliceIsSentence(p: string, o: nat, x: string)
    requires '.' !in p && o + |x| <= |p| && x == p[o..o + |x|]
    requires |x| > 0 ==> !IsSpace(x[0]) && !IsSpace(x[|x| - 1])
    ensures x == "" || Sentence(x)
  {
    assert forall k | 0 <= k < |x| :: x[k] == p[o + k];
  }

  /** The stripped non-blank pieces of pieces without `.` are sentences. */
  lemma {:induction false} KeptAreSentences(ps: seq<string>)
    requires forall k | 0 <= k < |ps| :: '.' !in ps[k]
    ensures forall k | 0 <= k < |NonBlankStripped(ps)| :: Sentence(NonBlankStripped(ps)[k])
  {
    if |ps| > 0 {
      StrippedPiece(ps[0]);
      KeptAreSentences(ps[1..]);
    }
  }

  /** Long feedback becomes one or two sentences, each followed by `.`, the
      two joined by `". "`; or nothing when the first two pieces are blank. */
  lemma FinalTrimSentences(f: string)
    requires |f| > TrimThreshold
    ensures var kept := KeptSentences(f);
      && |kept| <= 2
      && (forall k | 0 <= k < |kept| :: Sentence(kept[k]))
      && (|kept| == 0 ==> FinalTrim(f) == "")
      && (|kept| == 1 ==> FinalTrim(f) == kept[0] + ".")
      && (|kept| == 2 ==> FinalTrim(f) == kept[0] + SentenceSeparator + kept[1] + ".")
  {
    KeptAreSentences(FirstTwoPieces(f));
    PunctuatedSentences(KeptSentences(f));
  }

  /** Trimming is idempotent: trimmed feedback is left as it is. */
  lemma FinalTrimIdempotent(f: string)
    ensures FinalTrim(FinalTrim(f)) == FinalTrim(f)
  {
    var r := FinalTrim(f);
    if |f| > TrimThreshold && |r| > TrimThreshold {
      FinalTrimSentences(f);
      var kept := KeptSentences(f);
      if |kept| == 1 {
        TrimOneSentence(kept[0]);
      } else {
        TrimTwoSentences(kept[0], kept[1]);
      }
    }
  }

  lemma TrimOneSentence(x: string)
    requires Sentence(x) && |x| + 1 > TrimThreshold
    ensures FinalTrim(x + ".") == x + "."
  {
    CharNotContained(x, ".");
    SplitCharCons(x, ".", "");
    assert x + "." + "" == x + ".";
    assert Split("", ".") == [""];
    assert FirstTwoPieces(x + ".") == [x, ""];
    StripOfTrimmed(x);
    assert NonBlankStripped([x, ""]) == [x] + NonBlankStripped([""]);
    assert [x, ""][1..] == [""];
    PunctuateOne(x);
  }

  lemma TrimTwoSentences(x: string, y: string)
    requires Sentence(x) && Sentence(y) && |x| + |y| + 3 > TrimThreshold
    ensures FinalTrim(x + SentenceSeparator + y + ".") == x + SentenceSeparator + y + "."
  {
    KeptTwo(x, y);
    PunctuateTwo(x, y);
  }

  lemma KeptTwo(x: string, y: string)
    requires Sentence(x) && Sentence(y)
    ensures KeptSentences(x + SentenceSeparator + y + ".") == [x, y]
  {
    var sy := [' '] + y;
    TwoSentencePieces(x, y);
    StripOfTrimmed(x);
    StripAfterSpace(' ', y);
    StripOfTrimmed(y);
    NonBlankTwo(x, sy);
  }

  lemma TwoSentencePieces(x: string, y: string)
    requires Sentence(x) && Sentence(y)
    ensures FirstTwoPieces(x + SentenceSeparator + y + ".") == [x, [' '] + y]
  {
    var f := x + SentenceSeparator + y + ".";
    var sy := [' '] + y;
    CharNotContained(x, ".");
    CharNotContained(sy, ".");
    assert f == x + "." + (sy + "." + "");
    SplitCharCons(x, ".", sy + "." + "");
    SplitCharCons(sy, ".", "");
    assert Split("", ".") == [""];
    assert Split(f, ".") == [x, sy, ""];
  }

  lemma NonBlankTwo(a: string, b: string)
    requires Strip(a) != "" && Strip(b) != ""
    ensures NonBlankStripped([a, b]) == [Strip(a), Strip(b)]
  {
    assert [a, b][1..] == [b];
    assert [b][1..] == [];
  }

  /** Trimming does not bound the length by 200: a 201-character feedback
      without any `.` gains one. */
  lemma FinalTrimMayExceedThreshold()
    ensures var f := seq(201, _ => 'a');
      |f| > TrimThreshold && |FinalTrim(f)| == 202
  {
    var f := seq(201, _ => 'a');
    CharNotContained(f, ".");
    assert Split(f, ".") == [f];
    StripOfTrimmed(f);
    assert NonBlankStripped([f]) == [f] + NonBlankStripped([]);
    assert f[200] == 'a';
  }

  // ---------------------------------------------------------------------------
  // review_summary
  // ---------------------------------------------------------------------------

  /** The two model stages: `truncate_text` (token-based shortening of the
      original) and generation from the prompt, which may raise. */
  datatype ReviewModel = ReviewModel(shorten: string -> string, generate: string -> Result<string>)

  /** The model's outcome for a request. */
  function ModelOutput(original: string, summary: string, model: ReviewModel): Result<string> {
    model.generate(ReviewPrompt(model.shorten(original), summary))
  }

  /** `review_summary`: validation errors first, in the order the endpoint
      checks them; then the heuristic, answering without the model when three
      or more labels are missing; otherwise the combined and trimmed
      feedback. */
  function ReviewSummary(original: string, summary: string, model: ReviewModel): (r: Result<string>)
    ensures original == "" || summary == "" ==> r == Err(RequiredMsg)
    ensures original != "" && summary != "" && (Blank(original) || Blank(summary)) ==> r == Err(EmptyMsg)
    ensures !Blank(original) && !Blank(summary) && |original| < MinOriginalChars ==> r == Err(TooShortMsg)
    ensures r.Ok? <==> !Blank(original) && !Blank(summary) && |original| >= MinOriginalChars
    ensures r.Ok? && |BasicQuality(summary)| >= ShortCircuitLabels ==>
      r.value == MissingList(BasicQuality(summary)) + ShortCircuitTail
  {
    StripEmptyIffBlank(original);
    StripEmptyIffBlank(summary);
    if original == "" || summary == "" then Err(RequiredMsg)
    else if Strip(original) == "" || Strip(summary) == "" then Err(EmptyMsg)
    else if |original| < MinOriginalChars then Err(TooShortMsg)
    else
      var labels := BasicQuality(summary);
      if |labels| >= ShortCircuitLabels then Ok(MissingList(labels) + ShortCircuitTail)
      else Ok(FinalTrim(Combine(labels, ModelOutput(original, summary, model))))
  }

  /** With three or more labels the model is never consulted: any two models
      give the same answer. */
  lemma ShortCircuitIgnoresModel(original: string, summary: string, m1: ReviewModel, m2: ReviewModel)
    requires |BasicQuality(summary)| >= ShortCircuitLabels
    ensures ReviewSummary(original, summary, m1) == ReviewSummary(original, summary, m2)
  {
  }

  /** Below the short-circuit, the answer is the trimmed combination of the
      labels and the model's outcome. */
  lemma BelowShortCircuit(original: string, summary: string, model: ReviewModel)
    requires !Blank(original) && !Blank(summary) && |original| >= MinOriginalChars
    requires |BasicQuality(summary)| < ShortCircuitLabels
    ensures ReviewSummary(original, summary, model)
      == Ok(FinalTrim(Combine(BasicQuality(summary), ModelOutput(original, summary, model))))
  {
    StripEmptyIffBlank(original);
    StripEmptyIffBlank(summary);
  }

  /** Below the short-circuit, an accepted model text of at most 200
      characters is the whole feedback when no label is raised. */
  lemma AcceptedTextIsFeedback(original: string, summary: string, model: ReviewModel)
    requires !Blank(original) && !Blank(summary) && |original| >= MinOriginalChars
    requires BasicQuality(summary) == []
    requires ModelOutput(original, summary, model).Ok?
    requires var t := StripMarkers(ModelOutput(original, summary, model).value);
      Acceptable(t) && |t| <= TrimThreshold
    ensures ReviewSummary(original, summary, model) == Ok(StripMarkers(ModelOutput(original, summary, model).value))
  {
    BelowShortCircuit(original, summary, model);
    AcceptedAlone(ModelOutput(original, summary, model));
  }

  lemma AcceptedAlone(out: Result<string>)
    requires out.Ok? && Acceptable(StripMarkers(out.value)) && |StripMarkers(out.value)| <= TrimThreshold
    ensures FinalTrim(Combine([], out)) == StripMarkers(out.value)
  {
    assert Combine([], out) == StripMarkers(out.value);
  }

  /** The raised labels lead the feedback whatever the model does, even after
      the final trim. */
  lemma LabelsLeadFeedback(original: string, summary: string, model: ReviewModel)
    requires ReviewSummary(original, summary, model).Ok?
    requires BasicQuality(summary) != []
    ensures StartsWith(ReviewSummary(original, summary, model).value, MissingList(BasicQuality(summary)))
  {
    var labels := BasicQuality(summary);
    var head := MissingList(labels);
    var r := ReviewSummary(original, summary, model).value;
    if |labels| >= ShortCircuitLabels {
      assert r[..|head|] == head;
    } else {
      BelowShortCircuit(original, summary, model);
      var f := Combine(labels, ModelOutput(original, summary, model));
      MissingListIsSentence(labels);
      TrimKeepsLead(head, f);
    }
  }

  /** Feedback that starts with a sentence and a `.` still starts with that
      sentence after trimming. */
  lemma TrimKeepsLead(head: string, f: string)
    requires Sentence(head) && StartsWith(f, head + ".")
    ensures StartsWith(FinalTrim(f), head)
  {
    if |f| > TrimThreshold {
      var rest := f[|head| + 1..];
      assert f == head + "." + rest by {
        assert f[..|head| + 1] == head + ".";
      }
      CharNotContained(head, ".");
      SplitCharCons(head, ".", rest);
      assert FirstTwoPieces(f)[0] == head;
      StripOfTrimmed(head);
      FinalTrimSentences(f);
      var kept := KeptSentences(f);
      assert kept[0] == head;
      var r := FinalTrim(f);
      assert r[..|head|] == head;
    } else {
      assert f[..|head|] == (head + ".")[..|head|];
    }
  }

  /** The labels line holds no `.` and has no whitespace at its ends. */
  lemma MissingListIsSentence(labels: seq<string>)
    requires labels != [] && forall x | x in labels :: x in Labels
    ensures Sentence(MissingList(labels))
  {
    var j := Join(LabelSeparator, labels);
    var m := MissingList(labels);
    LabelsAvoidDot(labels);
    JoinEndsWithLast(labels);
    assert m == MissingPrefix + j;
    assert m[|m| - 1] == j[|j| - 1];
    assert forall k | 0 <= k < |m| :: m[k] != '.' by {
      assert forall k | 0 <= k < |j| :: m[|MissingPrefix| + k] == j[k];
      assert forall k | 0 <= k < |MissingPrefix| :: m[k] == MissingPrefix[k];
    }
  }

  lemma LabelsAvoidDot(labels: seq<string>)
    requires forall x | x in labels :: x in Labels
    ensures '.' !in Join(LabelSeparator, labels)
  {
    forall k | 0 <= k < |labels| ensures '.' !in labels[k] {
      assert labels[k] in Labels;
    }
    JoinAvoids(LabelSeparator, labels, '.');
  }

  lemma {:induction false} JoinEndsWithLast(labels: seq<string>)
    requires labels != [] && forall x | x in labels :: x in Labels
    ensures var j := Join(LabelSeparator, labels);
      |j| > 0 && !IsSpace(j[|j| - 1])
  {
    if |labels| > 1 {
      assert forall x | x in labels[1..] :: x in labels;
      JoinEndsWithLast(labels[1..]);
    } else {
      assert labels[0] in Labels;
    }
  }
}
