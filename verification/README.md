# Paper summarization pipeline — a Dafny model

This project models the decision logic of a four-service pipeline. A
coordinator asks a fetcher for arXiv papers on a topic. It then asks a
summarizer for a summary of each downloaded PDF. Unless that summary reports
a failure, it asks a reviewer to judge the summary against the paper's
extracted text. The result is one report entry per paper.

The model has one module per service and two shared modules:

- `Results` (`results.dfy`): `Option` (a value that may be absent) and
  `Result` (a stage that returns or raises, with the message text).
- `Text` (`text.dfy`): the Python string primitives the services use. These
  are `strip()`, `split(sep)` and `sep.join`, `split()`, the `\s+` collapse,
  `in`, `find` and `lower()`, with whitespace defined as CPython's
  `str.isspace` set.
- `Fetcher` (`fetcher.dfy`): the `fetch_papers` loop. It splits the feed
  into entries and extracts a title and an arXiv id from each. It then builds
  the PDF URL and a safe file name, and keeps the entries whose download and
  write succeed.
- `Summarizer` (`summarizer.dfy`): `clean_text`, and `extract_main_content`
  once its regex searches have run. It also models `smart_truncate`, the
  extraction length gate, the PDF path check, the summary quality gate and
  both endpoints.
- `Reviewer` (`reviewer.dfy`): the keyword heuristic and the review prompt.
  It also models removing echoed prompt markers, the acceptance test on the
  model's text, combining that text with the heuristic's labels, the final
  two-sentence trim, and `review_summary` end to end.
- `Coordinator` (`coordinator.dfy`): `summarization_workflow`, with the three
  downstream services as parameters. Some lemmas connect it to the fetcher
  and summarizer models.

The outside world is passed in as parameters:

- The feed response and each service call are `Result`s.
- A downloaded PDF is a `Result` of its page texts.
- The tokenizer is a counting function `string -> nat`.
- Each language model is a function `string -> Result<string>`.
- The two section regexes of `extract_main_content` are a `SectionFinder`.

Some behaviour in the code differs from what the services' own descriptions
suggest. The model follows the code, and proves each of these points:

- `clean_text` is not idempotent. In `"12 References x"`, a page-like number
  sits in front of a references heading. It survives the first pass and is
  removed by the second (`Summarizer.CleanTextNotIdempotent`).
- `smart_truncate` limits the sum of the per-sentence token counts, not the
  token count of its result (`Summarizer.SmartTruncateMayExceedBudget`).
- The reviewer's final trim does not limit feedback to 200 characters: a
  201-character feedback with no `.` becomes 202 characters
  (`Reviewer.FinalTrimMayExceedThreshold`).
- Only the first marker in list order that occurs in the model's text is
  used. The text kept is what follows that marker's last occurrence, stripped
  (`Reviewer.StripMarkersKeepsTextAfterLast`).
- The coordinator skips the review whenever the summary contains the
  case-sensitive substring `failed`. This includes genuine summaries that
  use the word (`Coordinator.FailureWordSkipsReview`).
- A negative `max_results` follows Python slice semantics: the stop bound
  counts from the end of the entry list (`Fetcher.EntrySlice`).

## Model

| member | source | states |
|---|---|---|
| Text.Split | fetcher_agent.py:32 | `split(sep)` yields at least one piece, the pieces joined by `sep` give back the text, there is more than one piece exactly when `sep` occurs, and no piece contains `sep` |
| Text.SplitHead | reviewer_agent.py:171 | the first piece of a split begins the text; it is the whole text when `sep` is absent, and otherwise ends where the leftmost `sep` starts |
| Text.JoinedPieceFollowsSep | fetcher_agent.py:32 | every piece after the first directly follows a separator in the text, and is followed by the next separator or by the end of the text |
| Text.Strip | summarizer_agent.py:44 | `strip()` is a slice of its input, everything removed before and after it is whitespace, and the result neither starts nor ends with whitespace |
| Text.StripEmptyIffBlank | reviewer_agent.py:110 | `s.strip()` is empty exactly when `s` is all whitespace |
| Text.Collapse | summarizer_agent.py:37 | `re.sub(r'\s+', ' ', s)` leaves only single plain spaces as whitespace, is empty only for empty input, and begins with whitespace exactly when the input does |
| Text.CollapseKeepsText | summarizer_agent.py:37 | the collapse keeps every non-whitespace character, in order |
| Text.CollapseIdempotent | summarizer_agent.py:37 | collapsing twice is the same as collapsing once |
| Text.Words | reviewer_agent.py:97 | every word of `split()` is non-empty and free of whitespace |
| Text.WordsSpellText | reviewer_agent.py:97 | the words of `split()`, concatenated, are exactly the non-whitespace characters of the text |
| Text.Find | fetcher_agent.py:38 | the leftmost occurrence of a substring; absent exactly when the substring does not occur |
| Text.KeepSelects | reviewer_agent.py:81-98 | filtering distinct labels by flags keeps them in order, and keeps a label exactly when its flag is set |
| Fetcher.PySlice | fetcher_agent.py:36 | Python's `s[lo:hi]`: both bounds are normalised (negative ones count from the end, then clamped), the length is their difference or 0, and element `k` is element `lo + k` of the input; `EntrySlice` instantiates it |
| Fetcher.EntrySlice | fetcher_agent.py:36 | `entries[1 : max_results + 1]` never takes the text before the first `<entry>`; it takes `min(max_results, n)` entries for a non-negative limit, none for -1, and drops trailing entries for more negative limits |
| Fetcher.ExaminedEntryFollowsTag | fetcher_agent.py:32-36 | every examined entry is the text right after an `<entry>` tag, up to the next tag or the end of the feed |
| Fetcher.RawTitle | fetcher_agent.py:38 | the raw title is missing (the indexing raises) exactly when the entry has no `<title>` tag |
| Fetcher.ExtractTitle | fetcher_agent.py:38 | a title exists exactly when the entry has a `<title>` tag; it has no line break and no whitespace at either end |
| Fetcher.TitleSource | fetcher_agent.py:38 | the title is the cleaned text after the first `<title>`; that text holds neither `<title>` nor `</title>` and ends at a `</title>`, at another `<title>` or at the end of the entry, so it is `split("<title>")[1].split("</title>")[0]` and not the naive text up to the first `</title>` |
| Fetcher.SectionSource | fetcher_agent.py:38 | `s.split(open)[1].split(close)[0]` directly follows the leftmost `open`, contains neither tag, and stops at a `close`, at another `open` or at the end |
| Fetcher.TakeUntilLt | fetcher_agent.py:39 | the greedy `[^<]+` run is a prefix free of `<`, followed by `<` or by the end |
| Fetcher.IdAt | fetcher_agent.py:39 | a group found at a position is a match of the id pattern there |
| Fetcher.IdAtComplete | fetcher_agent.py:39 | every match of the id pattern at a position is found there, with the same group |
| Fetcher.FirstIdFrom | fetcher_agent.py:39 | the search position is the leftmost one at which the pattern matches |
| Fetcher.SearchId | fetcher_agent.py:39-41 | `re.search(...)` followed by `group(1)`, with `None` for no match; its contract is the all-inputs lemma `Fetcher.SearchIdIsLeftmostMatch` (sound and complete for the leftmost match), built on `Fetcher.IdAt`, `Fetcher.IdAtComplete` and `Fetcher.FirstIdFrom` |
| Fetcher.SearchIdIsLeftmostMatch | fetcher_agent.py:39-41 | the id search finds nothing exactly when the pattern matches nowhere; otherwise it returns the group of the leftmost match |
| Fetcher.KeepFileNameChars | fetcher_agent.py:43 | the kept characters are exactly the allowed ones of the input (same counts per character), in their original order |
| Fetcher.SafeFileName | fetcher_agent.py:43 | the stem is the allowed characters among the first 50 characters of the underscored title (cut first, then filtered), followed by `.pdf`; so the name has at most 50 allowed characters before `.pdf` and never contains `/` |
| Fetcher.SafeFileNameCutsBeforeFiltering | fetcher_agent.py:43 | because the title is cut before it is filtered, fifty disallowed characters followed by a letter give the bare name `.pdf`, although filtering alone would keep the letter |
| Fetcher.KeepFileNameCharsAppend | fetcher_agent.py:43 | filtering a concatenation is concatenating the filtered parts |
| Fetcher.SafeFileNameKeepsPlainTitle | fetcher_agent.py:43 | a title of at most 50 allowed characters and spaces loses nothing: its file name is the title with spaces underscored |
| Fetcher.ParseEntry | fetcher_agent.py:37-56 | the body of the per-entry `try`: a paper when title, id, download and write all succeed, otherwise the entry is skipped; its contract is stated by `Fetcher.ParsedPaper` (what a paper is made of), `Fetcher.ParseEntrySucceeds` (the success direction), `Fetcher.ParseEntrySkips` (every skip reason) and `Fetcher.ParsedPaperWellFormed` (the path's shape) |
| Fetcher.ParsedPaper | fetcher_agent.py:37-56 | a paper comes from an entry with a title tag and an id match; its URL is built from the leftmost id and its path from the title's file name |
| Fetcher.ParseEntrySucceeds | fetcher_agent.py:38-56 | an entry with a title and an id match whose download and write both succeed yields exactly the paper with that title, the id's PDF URL and the absolute path of the file named after the title |
| Fetcher.ParseEntrySkips | fetcher_agent.py:37-59 | an entry without a title tag, without an id match, or whose download or write fails yields no paper |
| Fetcher.ParsedPaperWellFormed | fetcher_agent.py:38-56 | every parsed paper has a title without line breaks, an arXiv PDF URL, and a `.pdf` path inside the download directory |
| Fetcher.CollectAppend | fetcher_agent.py:36-59 | entries are handled independently and in order: collecting a concatenation concatenates the collections |
| Fetcher.CollectedComeFromEntries | fetcher_agent.py:36-59 | every collected paper is the result of parsing some examined entry |
| Fetcher.CollectEntries | fetcher_agent.py:34-59 | the loop returns the papers of the successful entries, in entry order |
| Fetcher.FetchPapers | fetcher_agent.py:23-61 | a failed feed request becomes the endpoint's error; otherwise the papers of the examined entries are returned in feed order, at most `max_results` of them for a non-negative limit |
| Fetcher.FetchedPaperShape | fetcher_agent.py:36-56 | every returned paper is well formed |
| Summarizer.CutAt | summarizer_agent.py:41-42 | `re.sub(r'\bKW\b.*', '', s, DOTALL, IGNORECASE)` keeps the prefix before the first word-bounded heading, or all of `s` when there is none; the result holds no such heading |
| Summarizer.CutKeepsAbsence | summarizer_agent.py:41-42 | cutting at one heading never creates an occurrence of the other heading |
| Summarizer.StripKeepsAbsence | summarizer_agent.py:44 | stripping never creates a heading |
| Summarizer.CleanText | summarizer_agent.py:34-44 | collapse whitespace, drop a text that is only a page number, cut at the first references heading and then at the first bibliography heading (either in any case), strip; its contract is stated by the lemma rows `Summarizer.CleanTextShape`, `Summarizer.CleanTextRemovesHeadings`, `Summarizer.CleanTextHasNoNewline`, `Summarizer.CleanTextOnlyDeletes` and `Summarizer.CleanTextKeepsCleanInput` that follow |
| Summarizer.CleanTextShape | summarizer_agent.py:34-44 | cleaned text is whitespace-collapsed, with no whitespace at either end |
| Summarizer.CleanTextRemovesHeadings | summarizer_agent.py:34-44 | no word-bounded references or bibliography heading survives cleaning |
| Summarizer.CleanTextHasNoNewline | summarizer_agent.py:34-44 | cleaned text contains no newline |
| Summarizer.CleanTextOnlyDeletes | summarizer_agent.py:34-44 | cleaning strips a prefix of the collapsed text; unless the text is a bare page number (then cleaned to nothing), that prefix ends exactly at the first heading of either kind, or at the end when there is none |
| Summarizer.CutsLandOnHeading | summarizer_agent.py:41-42 | the two successive cuts stop at the end of the text or where a references or bibliography heading of the uncut text starts |
| Summarizer.CleanTextKeepsCleanInput | summarizer_agent.py:34-44 | text with no heading that is not a bare page number loses only its surrounding whitespace |
| Summarizer.CleanTextNotIdempotent | summarizer_agent.py:34-44 | cleaning `"12 References x"` gives `"12"`, and cleaning that again gives the empty text |
| Summarizer.ComposeSections | summarizer_agent.py:54-74 | with both spans found, the result is exactly `Abstract: `, the stripped abstract, the main-content label and the main span, in that order and with nothing else; a lone abstract is labelled with nothing after it; a lone main span is the whole text; with neither, the result is the first 3000 characters |
| Summarizer.FitFrom | summarizer_agent.py:88-93 | from a given piece on, the loop keeps the longest run of pieces whose summed counts stay within budget, stopping at the first piece that would overflow it |
| Summarizer.FitCount | summarizer_agent.py:84-93 | the kept pieces fit the budget, and adding the next piece would overflow it |
| Summarizer.FitCountIsLongest | summarizer_agent.py:84-93 | no longer run of leading pieces fits the budget |
| Summarizer.SmartTruncate | summarizer_agent.py:80-81 | text whose count fits the budget is returned unchanged |
| Summarizer.SmartTruncateKeepsPrefix | summarizer_agent.py:84-95 | the result is a prefix of the text followed by a `.`, so only whole leading sentences are kept, in order |
| Summarizer.SmartTruncateBudget | summarizer_agent.py:84-95 | over budget, the result is the first `k` pieces, each followed by `.`; their summed counts fit the budget, and the next piece would overflow it |
| Summarizer.SmartTruncateMayExceedBudget | summarizer_agent.py:84-95 | the count of the result can exceed the budget, because the budget limits only the summed piece counts |
| Summarizer.RawText | summarizer_agent.py:103-106 | the raw text is empty exactly when there are no pages; otherwise it starts with the first page and ends with the last page, each followed by a newline |
| Summarizer.RawTextStep | summarizer_agent.py:105-106 | one turn of the page loop appends the page and a newline to the text of the earlier pages, so the recursive definition is the loop's `+=` accumulation |
| Summarizer.MainContent | summarizer_agent.py:113-114 | `extract_main_content(clean_text(raw_text))`; what it yields is stated by `Summarizer.ComposeSections` (the four section cases) over text with the properties of the `Summarizer.CleanText` lemma rows |
| Summarizer.ExtractTextFromPdf | summarizer_agent.py:97-125 | succeeds exactly when the document opens and its main content is at least 100 characters once stripped, and then returns that content; otherwise returns the read error or the too-short message, under the extraction prefix |
| Summarizer.ValidPdfPath | summarizer_agent.py:139 | a path passes exactly when it is non-empty and its lower-cased form ends in `.pdf`; both endpoints apply it first (`Summarizer.ExtractTextEndpoint`, `Summarizer.SummarizePaper`) and `Coordinator.FetchedPathsPassCheck` shows fetched paths pass it |
| Summarizer.ExtractTextEndpoint | summarizer_agent.py:127-134 | a path that is empty or does not end in `.pdf` (ignoring case) is rejected; otherwise the result is the extraction's |
| Summarizer.SummaryGate | summarizer_agent.py:177-182 | the stripped summary is kept exactly when it has at least 30 words; otherwise the fixed fallback message replaces it |
| Summarizer.SummarizePaper | summarizer_agent.py:136-198 | an invalid path is rejected; the call succeeds exactly when extraction and generation both succeed, and then returns the quality gate applied to the model's output on the truncated text (at least 30 words, or the fallback message); an extraction or generation error is returned under the summarization prefix |
| Reviewer.QualityFlags | reviewer_agent.py:84-98 | a family's flag is raised exactly when none of its keywords occurs in the lower-cased summary, and the detail flag exactly when the summary has fewer than 25 words |
| Reviewer.LabelsDistinct | reviewer_agent.py:85-98 | the five labels are pairwise different |
| Reviewer.BasicQuality | reviewer_agent.py:78-100 | the labels are reported in fixed order; a family's label appears exactly when none of its keywords occurs, and "sufficient detail" exactly when there are fewer than 25 words |
| Reviewer.ReviewPrompt | reviewer_agent.py:51-76 | the prompt is the fixed head, the first 600 characters of the original, the fixed middle, the whole summary at its known position, then the fixed tail |
| Reviewer.AfterLast | reviewer_agent.py:171 | `s.split(m)[-1]` never contains `m`, and is `s` itself when `m` does not occur |
| Reviewer.AfterLastFollowsMarker | reviewer_agent.py:171 | when `m` occurs, the text ends with `m` followed by `s.split(m)[-1]` |
| Reviewer.AfterLastOccurrence | reviewer_agent.py:171 | for a marker whose occurrences cannot overlap, `s.split(m)[-1]` is the text after its last occurrence |
| Reviewer.FirstMarker | reviewer_agent.py:168-172 | the marker used is the first one, in list order, that occurs in the model's text |
| Reviewer.StripMarkers | reviewer_agent.py:168-172 | with no marker the text is unchanged; otherwise the result is the stripped last split piece for the first marker present, which is free of that marker and has no whitespace at either end; it is always a piece of the model's text |
| Reviewer.MarkersFirstCharUnique | reviewer_agent.py:168 | no marker can overlap another occurrence of itself |
| Reviewer.StripMarkersKeepsTextAfterLast | reviewer_agent.py:168-172 | the cleaned text is exactly the stripped text after the last occurrence of the first marker present |
| Reviewer.EchoedPromptIsRemoved | reviewer_agent.py:168-172 | when the model echoes the whole prompt before its answer, only the stripped answer remains, since the prompt ends with `Response:` |
| Reviewer.Acceptable | reviewer_agent.py:175-178 | the model's cleaned text is used only when non-empty, over 8 words, under 250 characters and free of the three refusal phrases in lower case; `Reviewer.Combine` and `Reviewer.AcceptedTextIsFeedback` state what acceptance decides |
| Reviewer.Combine | reviewer_agent.py:175-197 | labels always lead, followed by `.`; accepted model text is the whole feedback when no label is raised, and otherwise follows the label line and `". "` exactly; without accepted text the result is the label line with `.`, or a fixed sentence chosen by whether generation raised |
| Reviewer.FinalTrim | reviewer_agent.py:200-204 | feedback of at most 200 characters is unchanged; longer feedback, if not emptied, ends with `.` |
| Reviewer.Punctuate | reviewer_agent.py:203-204 | non-empty text without a final `.` gains one; empty text, or text already ending in `.`, is unchanged; so non-empty output always ends with `.` |
| Reviewer.KeptAreSentences | reviewer_agent.py:201-202 | the stripped, non-blank pieces kept by the trim are sentences: non-empty, without `.`, and without whitespace at either end |
| Reviewer.FinalTrimSentences | reviewer_agent.py:200-204 | long feedback becomes nothing, one sentence followed by `.`, or two sentences joined by `". "` and ending with `.` |
| Reviewer.FinalTrimIdempotent | reviewer_agent.py:200-204 | trimmed feedback is left unchanged by a second trim |
| Reviewer.TrimKeepsLead | reviewer_agent.py:200-204 | feedback that starts with a sentence followed by `.` still starts with that sentence after trimming |
| Reviewer.FinalTrimMayExceedThreshold | reviewer_agent.py:200-204 | a 201-character feedback without `.` is trimmed to 202 characters |
| Reviewer.ReviewSummary | reviewer_agent.py:106-126 | the three validation errors apply in order, and the request succeeds exactly when none applies; with three or more labels the answer is the label line and the fixed closing sentence |
| Reviewer.ShortCircuitIgnoresModel | reviewer_agent.py:122-126 | with three or more labels, any two models give the same answer |
| Reviewer.BelowShortCircuit | reviewer_agent.py:128-204 | below three labels, the answer is the trimmed combination of the labels and the model's outcome |
| Reviewer.AcceptedTextIsFeedback | reviewer_agent.py:175-184 | with no label, accepted model text of at most 200 characters is the whole feedback |
| Reviewer.LabelsLeadFeedback | reviewer_agent.py:123-204 | whenever labels are raised, the feedback starts with the label line, whatever the model does and even after the trim |
| Reviewer.MissingListIsSentence | reviewer_agent.py:124 | the label line holds no `.` and has no whitespace at either end |
| Coordinator.SummarizerService | coordinator_agent.py:33-38 | the summarizer as the coordinator sees it: the summary on success, a raised error otherwise; `Coordinator.SummaryOf`, `Coordinator.ReportedSummaryShape` and `Coordinator.MissingPathSkipsReview` state what the workflow makes of it |
| Coordinator.SummaryOf | coordinator_agent.py:33-38 | a raising summary call gives the failure text with the error; otherwise the `summary` field, or empty text when it is absent |
| Coordinator.FeedbackOf | coordinator_agent.py:40-59 | a summary containing `failed` skips the review; otherwise an extraction or review error gives the review-failure text, and success gives the `feedback` field |
| Coordinator.ProcessPaper | coordinator_agent.py:29-66 | an entry has its 1-based index, its title or "Unknown Title", the summary for its path (the path is empty when absent), and the feedback for that path and summary |
| Coordinator.ProcessAll | coordinator_agent.py:28-66 | one entry per paper, in order, numbered consecutively |
| Coordinator.SummarizationWorkflow | coordinator_agent.py:18-67 | a fetch failure fails the request; an empty or absent paper list gives the fixed message; otherwise there is exactly one entry per paper, in order, numbered from 1 |
| Coordinator.SummaryFailureSkipsReview | coordinator_agent.py:37-57 | a failed summary call always skips the review, since its text contains `failed` |
| Coordinator.FailureWordSkipsReview | coordinator_agent.py:41-57 | a genuine summary that contains `failed` is not reviewed either |
| Coordinator.SkippedReviewIgnoresServices | coordinator_agent.py:40-57 | when the review is skipped, the extraction and review services have no influence on the entry |
| Coordinator.EntryDependsOnOwnPaper | coordinator_agent.py:29-66 | an entry depends only on the service answers for its own paper |
| Coordinator.ReportEntryIsolated | coordinator_agent.py:28-66 | in a whole report, entry `i` depends only on paper `i`, so one paper's failure never affects another's entry |
| Coordinator.ReportedSummaryShape | coordinator_agent.py:33-38 | backed by the summarizer, every reported summary has at least 30 words, is the fallback message, or starts with the failure text |
| Coordinator.MissingPathSkipsReview | coordinator_agent.py:31-57 | backed by the summarizer, a paper without `local_path` fails the path check, so its entry holds a failure text and the skipped-review message |
| Coordinator.FetchedPathsPassCheck | summarizer_agent.py:139-140 | every path the fetcher returns passes the summarizer's PDF path check |
| Coordinator.WellFormedPathPassesCheck | summarizer_agent.py:139-140 | a well-formed paper's path ends in `.pdf` even after lower-casing, so the check accepts it |

## Left out

- Networking: HTTP requests, timeouts, headers, status codes and JSON
  decoding are not modelled. A failed call, including an error status or an
  undecodable body, is an `Err` with its message. A response field is an
  `Option`.
- The error text a failed service call carries over HTTP is a parameter:
  `Coordinator.SummarizerService` takes it as `failure`. The text of
  `raise_for_status` does not include the endpoint's detail.
- Nested `HTTPException` messages: `str()` of an exception depends on the
  library version. The model writes a wrapped error as the outer prefix
  followed by the inner detail.
- The file system: downloading and writing each PDF are the `Io`
  parameter's `download` and `save`. Creating the download directory
  (`os.makedirs`) is not modelled; the model assumes it succeeds. It runs
  once per request, outside the per-entry `try`, so if it raised, the whole
  request would fail with a server error; no single entry would be skipped.
  `os.path.abspath` is modelled as the working directory `workDir`, then
  `/downloaded_papers/`, then the file name. Path normalisation is not
  modelled.
- PDF reading (`fitz`) is a `Result` of the page texts. A failure to open
  or read a page is its `Err`.
- The two regex searches of `extract_main_content` are the
  `SectionFinder` parameter. Only how their results are combined is modelled.
- The tokenizers and language models are parameters. This covers generation
  settings, input truncation to 1024 tokens, decoding, and the reviewer's
  `truncate_text`.
- The reviewer's model samples at random. Because it is a function
  parameter, each prompt has exactly one answer.
- The reviewer's outer handlers for GPU out-of-memory and any other
  unexpected exception are not modelled. The same goes for logging, CUDA
  cache clearing, the health and root endpoints, and startup hooks.
- Character classes: `lower()`, `isalnum()`, `\w`, `\d` and `IGNORECASE`
  use their ASCII meaning. Python's Unicode behaviour for letters and digits
  outside ASCII is not modelled. Whitespace is CPython's full `isspace` set.
- The page-number pattern `^\d+\s*$` with MULTILINE is modelled by
  `Summarizer.IsPageNumber` as matching the whole text. This is exact once
  the collapse has removed every newline, since `^` and `$` then match only
  at the ends.
- Text.Words: its contract and `Text.WordsSpellText` say that the words are
  whitespace-free and spell out the text's non-whitespace characters. They
  do not state that each word is a maximal run.
- Text.Collapse: its contracts do not state that the spaces fall exactly
  where whitespace runs were. They state the collapsed shape, the kept
  non-whitespace text, the first character and idempotence.
- Summarizer.SmartTruncate: its own contract states only the case that
  fits. The over-budget result is stated by `SmartTruncateKeepsPrefix` and
  `SmartTruncateBudget`.
- Reviewer.FinalTrim: its own contract states only the unchanged case and
  the final `.`. The exact shape of long feedback is stated by
  `FinalTrimSentences`.
