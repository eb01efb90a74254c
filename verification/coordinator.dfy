/** The coordinator service's `summarization_workflow`: fetch the papers, then
    for each one ask for a summary, and unless the summary signals a failure,
    fetch the paper's text and ask for a review; one report entry per paper.

    The three downstream services are parameters.  A service call that raises
    (transport error or error status) is an `Err` carrying the exception's
    text; a successful call yields the response field it reads, absent when
    the response lacks it. */
module Coordinator {

  import opened Results
  import opened Text
  import Fetcher
  import Summarizer

  const FetchFailed := "Fetcher agent failed: "
  const NoPapersMessage := "No papers found for the given topic."
  const UnknownTitle := "Unknown Title"
  /** The word whose presence in a summary skips the review. */
  const FailureWord := "failed"
  const SummaryFailed := "\U{274C} Summary generation failed: "
  const ReviewSkipped := "\U{274C} Review skipped due to summary failure."
  const ReviewFailed := "\U{274C} Review generation failed: "

  /** One element of the fetcher's `papers` list, as the coordinator reads it. */
  datatype PaperJson = PaperJson(title: Option<string>, localPath: Option<string>)

  datatype ReportEntry = ReportEntry(paperIndex: nat, title: string, summary: string, feedback: string)

  /** The `report` field: a message when nothing was fetched, else the entries. */
  datatype Report = NoPapers(message: string) | Entries(entries: seq<ReportEntry>)

  /** The downstream calls: `/summarize_paper` and `/extract_text` on a path,
      `/review_summary` on an original text and a summary. */
  datatype Services = Services(
    summarize: string -> Result<Option<string>>,
    extractText: string -> Result<Option<string>>,
    review: (string, string) -> Result<Option<string>>)

  /** The summary of the paper at `path`, or the failure text. */
  function SummaryOf(path: string, svc: Services): (s: string)
    ensures svc.summarize(path).Err? ==> s == SummaryFailed + svc.summarize(path).error
    ensures svc.summarize(path).Ok? ==> s == svc.summarize(path).value.GetOr("")
  {
    match svc.summarize(path)
    case Err(e) => SummaryFailed + e
    case Ok(field) => field.GetOr("")
  }

  /** The feedback for the paper at `path` with summary `summary`. */
  function FeedbackOf(path: string, summary: string, svc: Services): (f: string)
    ensures Contains(summary, FailureWord) ==> f == ReviewSkipped
    ensures !Contains(summary, FailureWord) && svc.extractText(path).Err? ==>
      f == ReviewFailed + svc.extractText(path).error
    ensures !Contains(summary, FailureWord) && svc.extractText(path).Ok? ==>
      var original := svc.extractText(path).value.GetOr("");
      f == match svc.review(original, summary)
           case Err(e) => ReviewFailed + e
           case Ok(field) => field.GetOr("")
  {
    if Contains(summary, FailureWord) then ReviewSkipped
    else
      match svc.extractText(path)
      case Err(e) => ReviewFailed + e
      case Ok(text) =>
        match svc.review(text.GetOr(""), summary)
        case Err(e) => ReviewFailed + e
        case Ok(field) => field.GetOr("")
  }

  /** The loop body for the paper at 1-based position `index`. */
  function ProcessPaper(index: nat, paper: PaperJson, svc: Services): (e: ReportEntry)
    ensures e.paperIndex == index
    ensures e.title == paper.title.GetOr(UnknownTitle)
    ensures e.summary == SummaryOf(paper.localPath.GetOr(""), svc)
    ensures e.feedback == FeedbackOf(paper.localPath.GetOr(""), e.summary, svc)
  {
    var path := paper.localPath.GetOr("");
    var summary := SummaryOf(path, svc);
    ReportEntry(index, paper.title.GetOr(UnknownTitle), summary, FeedbackOf(path, summary, svc))
  }

  /** The entries for `papers`, numbered from `first`. */
  function ProcessAll(first: nat, papers: seq<PaperJson>, svc: Services): (r: seq<ReportEntry>)
    ensures |r| == |papers|
    ensures forall i | 0 <= i < |r| :: r[i] == ProcessPaper(first + i, papers[i], svc)
    decreases |papers|
  {
    if |papers| == 0 then []
    else [ProcessPaper(first, papers[0], svc)] + ProcessAll(first + 1, papers[1..], svc)
  }

  /** `summarization_workflow`: a fetch failure fails the whole request; an
      empty (or absent) paper list gives the fixed message; otherwise exactly
      one entry per paper, in order, numbered from 1. */
  method SummarizationWorkflow(fetched: Result<Option<seq<PaperJson>>>, svc: Services) returns (r: Result<Report>)
    ensures fetched.Err? ==> r == Err(FetchFailed + fetched.error)
    ensures fetched.Ok? && fetched.value.GetOr([]) == [] ==> r == Ok(NoPapers(NoPapersMessage))
    ensures fetched.Ok? && fetched.value.GetOr([]) != [] ==>
      var papers := fetched.value.GetOr([]);
      && r.Ok? && r.value.Entries?
      && |r.value.entries| == |papers|
      && forall i | 0 <= i < |papers| :: r.value.entries[i] == ProcessPaper(i + 1, papers[i], svc)
  {
    if fetched.Err? {
      return Err(FetchFailed + fetched.error);
    }
    var papers := fetched.value.GetOr([]);
    if papers == [] {
      return Ok(NoPapers(NoPapersMessage));
    }
    var report: seq<ReportEntry> := [];
    for i := 0 to |papers|
      invariant |report| == i
      invariant forall k | 0 <= k < i :: report[k] == ProcessPaper(k + 1, papers[k], svc)
    {
      report := report + [ProcessPaper(i + 1, papers[i], svc)];
    }
    return Ok(Entries(report));
  }

  // ---------------------------------------------------------------------------
  // Properties of one entry
  // ---------------------------------------------------------------------------

  /** A failed summary call always skips the review, since its text names the
      failure. */
  lemma SummaryFailureSkipsReview(path: string, svc: Services)
    requires svc.summarize(path).Err?
    ensures FeedbackOf(path, SummaryOf(path, svc), svc) == ReviewSkipped
  {
    var s := SummaryOf(path, svc);
    assert s[21..27] == FailureWord;
    assert OccursAt(s, FailureWord, 21);
  }

  /** The skip test is a plain substring test: a genuine summary that uses the
      word "failed" is not reviewed either. */
  lemma FailureWordSkipsReview(path: string, svc: Services, summary: string)
    requires svc.summarize(path) == Ok(Some(summary))
    requires Contains(summary, FailureWord)
    ensures FeedbackOf(path, SummaryOf(path, svc), svc) == ReviewSkipped
  {
  }

  /** When the review is skipped, neither the text extraction nor the reviewer
      has any say: services that differ only there give the same entry. */
  lemma SkippedReviewIgnoresServices(index: nat, paper: PaperJson, svc1: Services, svc2: Services)
    requires svc1.summarize == svc2.summarize
    requires Contains(SummaryOf(paper.localPath.GetOr(""), svc1), FailureWord)
    ensures ProcessPaper(index, paper, svc1) == ProcessPaper(index, paper, svc2)
  {
    var path := paper.localPath.GetOr("");
    assert SummaryOf(path, svc1) == SummaryOf(path, svc2);
  }

  /** An entry depends only on what the services answer for this paper:
      services that agree on its path (and reviewer) give the same entry, so
      other papers' failures never reach it. */
  lemma EntryDependsOnOwnPaper(index: nat, paper: PaperJson, svc1: Services, svc2: Services)
    requires var path := paper.localPath.GetOr("");
      && svc1.summarize(path) == svc2.summarize(path)
      && svc1.extractText(path) == svc2.extractText(path)
      && svc1.review == svc2.review
    ensures ProcessPaper(index, paper, svc1) == ProcessPaper(index, paper, svc2)
  {
  }

  /** In a whole report, each paper's entry depends only on that paper: two
      runs whose services agree on paper `i`'s path agree on entry `i`. */
  lemma ReportEntryIsolated(papers: seq<PaperJson>, svc1: Services, svc2: Services, i: nat)
    requires i < |papers|
    requires var path := papers[i].localPath.GetOr("");
      && svc1.summarize(path) == svc2.summarize(path)
      && svc1.extractText(path) == svc2.extractText(path)
      && svc1.review == svc2.review
    ensures ProcessAll(1, papers, svc1)[i] == ProcessAll(1, papers, svc2)[i]
  {
    EntryDependsOnOwnPaper(i + 1, papers[i], svc1, svc2);
  }

  // ---------------------------------------------------------------------------
  // With the summarizer and fetcher modelled
  // ---------------------------------------------------------------------------

  /** The summarizer's `/summarize_paper` as seen over HTTP: its summary, or,
      when it answers with an error status, the text `failure` of the exception
      the status check raises (which does not carry the endpoint's detail). */
  function SummarizerService(path: string, doc: Result<seq<string>>, finder: Summarizer.SectionFinder,
                             count: string -> nat, generate: string -> Result<string>,
                             failure: string): Result<Option<string>>
  {
    match Summarizer.SummarizePaper(path, doc, finder, count, generate)
    case Ok(s) => Ok(Some(s))
    case Err(_) => Err(failure)
  }

  /** Backed by the summarizer, every reported summary is a real summary of
      at least 30 words, the fixed fallback message, or a failure text. */
  lemma ReportedSummaryShape(index: nat, paper: PaperJson, svc: Services,
                             doc: Result<seq<string>>, finder: Summarizer.SectionFinder,
                             count: string -> nat, generate: string -> Result<string>, failure: string)
    requires var path := paper.localPath.GetOr("");
      svc.summarize(path) == SummarizerService(path, doc, finder, count, generate, failure)
    ensures var s := ProcessPaper(index, paper, svc).summary;
      |Words(s)| >= Summarizer.MinSummaryWords || s == Summarizer.FallbackSummary || StartsWith(s, SummaryFailed)
  {
    var path := paper.localPath.GetOr("");
    var s := ProcessPaper(index, paper, svc).summary;
    if svc.summarize(path).Err? {
      assert s[..|SummaryFailed|] == SummaryFailed;
    }
  }

  /** Backed by the summarizer, a paper without a `local_path` fails the path
      check, so its entry carries a failure text and no review. */
  lemma MissingPathSkipsReview(index: nat, paper: PaperJson, svc: Services,
                               doc: Result<seq<string>>, finder: Summarizer.SectionFinder,
                               count: string -> nat, generate: string -> Result<string>, failure: string)
    requires paper.localPath.None?
    requires svc.summarize("") == SummarizerService("", doc, finder, count, generate, failure)
    ensures ProcessPaper(index, paper, svc).summary == SummaryFailed + failure
    ensures ProcessPaper(index, paper, svc).feedback == ReviewSkipped
  {
    SummaryFailureSkipsReview("", svc);
  }

  /** Every paper the fetcher returns has a path the summarizer accepts. */
  lemma FetchedPathsPassCheck(content: string, maxResults: int, io: Fetcher.Io, j: nat)
    requires j < |Fetcher.Collect(Fetcher.ExaminedEntries(content, maxResults), Fetcher.Parser(io))|
    ensures Summarizer.ValidPdfPath(Fetcher.Collect(Fetcher.ExaminedEntries(content, maxResults), Fetcher.Parser(io))[j].localPath)
  {
    var papers := Fetcher.Collect(Fetcher.ExaminedEntries(content, maxResults), Fetcher.Parser(io));
    Fetcher.FetchedPaperShape(content, maxResults, io, j);
    WellFormedPathPassesCheck(papers[j], io);
  }

  /** The path the fetcher builds for a paper passes the summarizer's check. */
  lemma WellFormedPathPassesCheck(p: Fetcher.Paper, io: Fetcher.Io)
    requires Fetcher.WellFormedPaper(p, io)
    ensures Summarizer.ValidPdfPath(p.localPath)
  {
    LowerPdfSuffix();
    LowerKeepsLowerSuffix(p.localPath, Fetcher.PdfSuffix);
  }

  lemma LowerPdfSuffix()
    ensures Lower(Fetcher.PdfSuffix) == Fetcher.PdfSuffix
  {
    assert Fetcher.PdfSuffix == ".pdf";
  }

  /** Lower-casing keeps a suffix that is already lower case. */
  lemma LowerKeepsLowerSuffix(s: string, suffix: string)
    requires EndsWith(s, suffix) && Lower(suffix) == suffix
    ensures EndsWith(Lower(s), suffix)
  {
    var n := |s| - |suffix|;
    forall k | 0 <= k < |suffix| ensures Lower(s)[n + k] == suffix[k] {
      assert s[n + k] == suffix[k];
      assert Lower(suffix)[k] == LowerChar(suffix[k]);
    }
  }
}
