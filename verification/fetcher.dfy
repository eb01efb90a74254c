/** The fetcher service's `fetch_papers` loop: split the arXiv Atom feed into
    entries, pick a title and an arXiv id out of each, derive the PDF URL and a
    safe local file name, download, and keep the entries for which every step
    succeeded.

    The feed request, the PDF download and the file write are outside world;
    they arrive as a `Result` and as the functions of `Io`. */
module Fetcher {

  import opened Results
  import opened Text

  const EntryTag := "<entry>"
  const TitleOpen := "<title>"
  const TitleClose := "</title>"
  /** The literal part of `<id>http://arxiv\.org/abs/([^<]+)</id>` before the group. */
  const IdOpen := "<id>http://arxiv.org/abs/"
  const IdClose := "</id>"
  const PdfUrlPrefix := "https://arxiv.org/pdf/"
  const PdfSuffix := ".pdf"
  const DownloadDir := "downloaded_papers"
  /** Characters of the underscored title that the file name is cut to. */
  const StemLimit := 50
  const QueryFailed := "arXiv API request failed: "

  /** One element of the `papers` list of the response. */
  datatype Paper = Paper(title: string, pdfUrl: string, localPath: string)

  /** The side effects of one entry: `download(url)` is the GET of the PDF with
      its status check, `save(path, data)` whether writing the file succeeded,
      and `workDir` the absolute, normalised working directory that
      `os.path.abspath` resolves against. */
  datatype Io = Io(download: string -> Result<string>, save: (string, string) -> bool, workDir: string)

  // ---------------------------------------------------------------------------
  // Which entries are examined
  // ---------------------------------------------------------------------------

  /** A Python slice bound normalised against length `n`. */
  function SliceBound(i: int, n: nat): (r: nat)
    ensures r <= n
  {
    if i < 0 then (if i + n < 0 then 0 else i + n)
    else if i > n then n
    else i
  }

  /** Python's `s[lo:hi]`. */
  function PySlice<T>(s: seq<T>, lo: int, hi: int): (r: seq<T>)
    ensures var a, b := SliceBound(lo, |s|), SliceBound(hi, |s|);
      |r| == if a < b then b - a else 0
    ensures forall k | 0 <= k < |r| :: SliceBound(lo, |s|) + k < |s| && r[k] == s[SliceBound(lo, |s|) + k]
  {
    var a, b := SliceBound(lo, |s|), SliceBound(hi, |s|);
    if a < b then s[a..b] else []
  }

  /** `entries[1 : max_results + 1]` for a list of `n + 1` pieces: the first
      piece is never taken; a non-negative limit caps the number taken, while a
      negative one counts from the end of the list, dropping
      `-(max_results + 1)` trailing pieces. */
  function EntrySlice<T>(pieces: seq<T>, maxResults: int): (r: seq<T>)
    requires |pieces| >= 1
    ensures forall k | 0 <= k < |r| :: k + 1 < |pieces| && r[k] == pieces[k + 1]
    ensures var n := |pieces| - 1;
      maxResults >= 0 ==> |r| == Min(maxResults, n)
    ensures maxResults == -1 ==> r == []
    ensures var n := |pieces| - 1;
      maxResults < -1 ==> |r| == if n + maxResults + 1 > 0 then n + maxResults + 1 else 0
  {
    PySlice(pieces, 1, maxResults + 1)
  }

  /** `content.split("<entry>")[1 : max_results + 1]`: the entries the loop
      examines.  The text before the first `<entry>` is never one of them. */
  function ExaminedEntries(content: string, maxResults: int): seq<string> {
    EntrySlice(Split(content, EntryTag), maxResults)
  }

  /** Each examined entry is the text right after an `<entry>` tag of the feed,
      up to the next tag or the end of the feed. */
  lemma ExaminedEntryFollowsTag(content: string, maxResults: int, k: nat) returns (i: nat)
    requires k < |ExaminedEntries(content, maxResults)|
    ensures var e := ExaminedEntries(content, maxResults)[k];
      && OccursAt(content, EntryTag + e, i)
      && (i + |EntryTag| + |e| == |content| || OccursAt(content, EntryTag, i + |EntryTag| + |e|))
  {
    i := JoinedPieceFollowsSep(content, EntryTag, Split(content, EntryTag), k + 1);
  }

  // ---------------------------------------------------------------------------
  // Title
  // ---------------------------------------------------------------------------

  /** `entry.split("<title>")[1].split("</title>")[0]`, absent when the first
      indexing raises, that is, exactly when the entry has no `<title>` tag. */
  function RawTitle(entry: string): (r: Option<string>)
    ensures r.None? <==> !Contains(entry, TitleOpen)
  {
    var pieces := Split(entry, TitleOpen);
    if |pieces| < 2 then None else Some(Split(pieces[1], TitleClose)[0])
  }

  /** The entry's title: the raw title stripped, its line breaks turned into
      spaces.  It exists exactly when the entry has a `<title>` tag. */
  function ExtractTitle(entry: string): (r: Option<string>)
    ensures r.None? <==> !Contains(entry, TitleOpen)
    ensures r.Some? ==> '\n' !in r.value
    ensures r.Some? && |r.value| > 0 ==> !IsSpace(r.value[0]) && !IsSpace(r.value[|r.value| - 1])
  {
    match RawTitle(entry)
    case None => None
    case Some(raw) =>
      CleanTitleShape(raw);
      Some(CleanTitle(raw))
  }

  /** `.strip().replace("\n", " ")`. */
  function CleanTitle(raw: string): string {
    ReplaceChar(Strip(raw), '\n', ' ')
  }

  lemma CleanTitleShape(raw: string)
    ensures '\n' !in CleanTitle(raw)
    ensures var r := CleanTitle(raw); |r| > 0 ==> !IsSpace(r[0]) && !IsSpace(r[|r| - 1])
  {
    var r := CleanTitle(raw);
    assert forall k | 0 <= k < |r| :: r[k] != '\n';
  }

  /** Where the title comes from: the text after the entry's first `<title>`
      tag, free of both `<title>` and `</title>`, and ending at the first `</title>`, at a further
      `<title>` or at the end of the entry. */
  lemma TitleSource(entry: string) returns (i: nat, raw: string)
    requires Contains(entry, TitleOpen)
    ensures Find(entry, TitleOpen) == Some(i)
    ensures OccursAt(entry, TitleOpen + raw, i)
    ensures !Contains(raw, TitleOpen) && !Contains(raw, TitleClose)
    ensures ExtractTitle(entry) == Some(CleanTitle(raw))
    ensures var e := i + |TitleOpen| + |raw|;
      e == |entry| || OccursAt(entry, TitleClose, e) || OccursAt(entry, TitleOpen, e)
  {
    i, raw := SectionSource(entry, TitleOpen, TitleClose);
  }

  /** `s.split(open)[1].split(close)[0]` for any two non-empty tags. */
  lemma SectionSource(s: string, open: string, close: string) returns (i: nat, raw: string)
    requires |open| > 0 && |close| > 0 && Contains(s, open)
    ensures raw == Split(Split(s, open)[1], close)[0]
    ensures Find(s, open) == Some(i)
    ensures OccursAt(s, open + raw, i)
    ensures !Contains(raw, open) && !Contains(raw, close)
    ensures var e := i + |open| + |raw|;
      e == |s| || OccursAt(s, close, e) || OccursAt(s, open, e)
  {
    i := SecondPiece(s, open);
    var piece := Split(s, open)[1];
    var parts := Split(piece, close);
    raw := parts[0];
    SplitHead(piece, close);
    PrefixAvoids(piece, raw, open);
    if |parts| > 1 {
      assert Find(piece, close) == Some(|raw|);
    }
    HeadEnd(s, open, close, piece, raw, i);
  }

  /** `s.split(open)[1]` starts right after the leftmost `open` and runs to
      the next `open` or to the end. */
  lemma SecondPiece(s: string, open: string) returns (i: nat)
    requires |open| > 0 && Contains(s, open)
    ensures Find(s, open) == Some(i)
    ensures Delimited(s, open, Split(s, open)[1], i)
  {
    var pieces := Split(s, open);
    SplitHead(s, open);
    i := JoinedPieceFollowsSep(s, open, pieces, 1);
  }

  /** A prefix `raw` of the text after `open` that is all of it or stops at a
      `close` ends at a `close`, at the next `open` or at the end. */
  lemma HeadEnd(s: string, open: string, close: string, piece: string, raw: string, i: nat)
    requires Delimited(s, open, piece, i)
    requires StartsWith(piece, raw)
    requires raw == piece || OccursAt(piece, close, |raw|)
    ensures OccursAt(s, open + raw, i)
    ensures var e := i + |open| + |raw|;
      e == |s| || OccursAt(s, close, e) || OccursAt(s, open, e)
  {
    OccursPrefix(s, open, piece, i, raw);
    if raw != piece {
      OccursWithin(s, open, piece, i, close, |raw|);
    }
  }

  // ---------------------------------------------------------------------------
  // arXiv id
  // ---------------------------------------------------------------------------

  /** The greedy run of `[^<]+`: the longest prefix without a `<`. */
  function TakeUntilLt(s: string): (r: string)
    ensures StartsWith(s, r)
    ensures '<' !in r
    ensures |r| < |s| ==> s[|r|] == '<'
  {
    if |s| == 0 || s[0] == '<' then "" else [s[0]] + TakeUntilLt(s[1..])
  }

  /** The run of a string that starts with a `<`-free `id` followed by `<` is `id`. */
  lemma {:induction false} TakeUntilLtOfRun(s: string, id: string)
    requires StartsWith(s, id) && '<' !in id && |id| < |s| && s[|id|] == '<'
    ensures TakeUntilLt(s) == id
  {
    if |id| > 0 {
      assert s[0] == id[0];
      assert s[1..][..|id| - 1] == id[1..];
      TakeUntilLtOfRun(s[1..], id[1..]);
      assert id == [id[0]] + id[1..];
    }
  }

  /** The regular expression `<id>http://arxiv\.org/abs/([^<]+)</id>` matches
      at `p` with `id` as its group. */
  predicate IdTagAt(s: string, id: string, p: int) {
    |id| > 0 && '<' !in id && OccursAt(s, IdOpen + id + IdClose, p)
  }

  /** The regular expression tried at position `p`: the group, if it matches there. */
  function IdAt(s: string, p: nat): (r: Option<string>)
    ensures r.Some? ==> IdTagAt(s, r.value, p)
  {
    if OccursAt(s, IdOpen, p) then
      var run := TakeUntilLt(s[p + |IdOpen|..]);
      var e := p + |IdOpen| + |run|;
      if |run| > 0 && OccursAt(s, IdClose, e) then
        assert s[p..e + |IdClose|] == s[p..p + |IdOpen|] + s[p + |IdOpen|..e] + s[e..e + |IdClose|];
        assert s[p + |IdOpen|..e] == run;
        Some(run)
      else None
    else None
  }

  /** A match at `p` is found by `IdAt`, with the same group. */
  lemma IdAtComplete(s: string, id: string, p: nat)
    requires IdTagAt(s, id, p)
    ensures IdAt(s, p) == Some(id)
  {
    var q := p + |IdOpen|;
    IdTagParts(s, id, p);
    TakeUntilLtOfRun(s[q..], id);
  }

  /** The pieces of a match: the opening literal at `p`, the group right after
      it followed by `<`, and the closing literal after the group. */
  lemma IdTagParts(s: string, id: string, p: nat)
    requires IdTagAt(s, id, p)
    ensures OccursAt(s, IdOpen, p)
    ensures OccursAt(s, IdClose, p + |IdOpen| + |id|)
    ensures var t := s[p + |IdOpen|..];
      StartsWith(t, id) && |id| < |t| && t[|id|] == '<'
  {
    var w := IdOpen + id + IdClose;
    var q := p + |IdOpen|;
    var m := s[p..p + |w|];
    assert m == w;
    assert s[p..q] == m[..|IdOpen|] == IdOpen;
    assert s[q..q + |id|] == m[|IdOpen|..|IdOpen| + |id|] == id;
    assert s[q + |id|..q + |id| + |IdClose|] == m[|IdOpen| + |id|..] == IdClose;
    var t := s[q..];
    assert t[..|id|] == s[q..q + |id|];
    assert t[|id|] == s[q + |id|] == IdClose[0];
  }

  /** The leftmost position at or after `p` where the regular expression matches. */
  function FirstIdFrom(s: string, p: nat): (r: Option<nat>)
    requires p <= |s|
    ensures r.Some? ==> p <= r.value && IdAt(s, r.value).Some?
    ensures r.Some? ==> forall q | p <= q < r.value :: IdAt(s, q).None?
    ensures r.None? ==> forall q | p <= q <= |s| :: IdAt(s, q).None?
    decreases |s| - p
  {
    if IdAt(s, p).Some? then Some(p)
    else if p == |s| then None
    else FirstIdFrom(s, p + 1)
  }

  /** `re.search(...)` followed by `group(1)`: the arXiv id of the entry. */
  function SearchId(s: string): Option<string> {
    match FirstIdFrom(s, 0)
    case None => None
    case Some(q) => IdAt(s, q)
  }

  /** `SearchId` is the regular-expression search: it finds a group exactly
      when the pattern matches somewhere, and then the group of the leftmost
      match. */
  lemma SearchIdIsLeftmostMatch(s: string) returns (q: nat)
    ensures SearchId(s).None? <==> forall p: nat, id | p <= |s| :: !IdTagAt(s, id, p)
    ensures SearchId(s).Some? ==> IdTagAt(s, SearchId(s).value, q)
    ensures SearchId(s).Some? ==> forall p: nat, id | p < q :: !IdTagAt(s, id, p)
  {
    q := 0;
    match FirstIdFrom(s, 0)
    case None =>
      forall p: nat, id | p <= |s| ensures !IdTagAt(s, id, p) {
        if IdTagAt(s, id, p) { IdAtComplete(s, id, p); }
      }
    case Some(first) =>
      q := first;
      forall p: nat, id | p < q ensures !IdTagAt(s, id, p) {
        if IdTagAt(s, id, p) { IdAtComplete(s, id, p); }
      }
  }

  /** `f"https://arxiv.org/pdf/{arxiv_id}.pdf"`. */
  function PdfUrl(id: string): string {
    PdfUrlPrefix + id + PdfSuffix
  }

  // ---------------------------------------------------------------------------
  // File name
  // ---------------------------------------------------------------------------

  /** Characters kept in a file name: `c.isalnum() or c in ["_", "."]`. */
  predicate FileNameChar(c: char) {
    IsAlnum(c) || c == '_' || c == '.'
  }

  /** The characters of `s` allowed in a file name, in order. */
  function KeepFileNameChars(s: string): (r: string)
    ensures |r| <= |s|
    ensures forall k | 0 <= k < |r| :: FileNameChar(r[k])
    ensures forall c :: multiset(r)[c] == if FileNameChar(c) then multiset(s)[c] else 0
    ensures IsSubsequence(r, s)
  {
    if |s| == 0 then ""
    else
      var rest := KeepFileNameChars(s[1..]);
      assert s == [s[0]] + s[1..];
      if FileNameChar(s[0]) then
        assert ([s[0]] + rest)[1..] == rest;
        [s[0]] + rest
      else rest
  }

  /** The file name stem: the title with spaces underscored, cut to 50
      characters, then reduced to the allowed characters. */
  function SafeStem(title: string): string {
    var underscored := ReplaceChar(title, ' ', '_');
    KeepFileNameChars(underscored[..Min(StemLimit, |underscored|)])
  }

  /** The PDF's file name: the allowed characters among the first 50 of the
      underscored title (cut first, filtered second), then `.pdf`. */
  function SafeFileName(title: string): (r: string)
    ensures r == KeepFileNameChars(ReplaceChar(title, ' ', '_')[..Min(StemLimit, |title|)]) + PdfSuffix
    ensures EndsWith(r, PdfSuffix)
    ensures |r| <= StemLimit + |PdfSuffix|
    ensures forall k | 0 <= k < |r| - |PdfSuffix| :: FileNameChar(r[k])
    ensures forall k | 0 <= k < |r| :: r[k] != '/'
  {
    var stem := SafeStem(title);
    StemFileName(stem);
    stem + PdfSuffix
  }

  /** An allowed stem of at most 50 characters followed by `.pdf`. */
  lemma StemFileName(stem: string)
    requires |stem| <= StemLimit && forall k | 0 <= k < |stem| :: FileNameChar(stem[k])
    ensures var r := stem + PdfSuffix;
      && EndsWith(r, PdfSuffix)
      && |r| <= StemLimit + |PdfSuffix|
      && (forall k | 0 <= k < |r| - |PdfSuffix| :: FileNameChar(r[k]))
      && (forall k | 0 <= k < |r| :: r[k] != '/')
  {
    var r := stem + PdfSuffix;
    assert r[|r| - |PdfSuffix|..] == PdfSuffix;
    assert forall k | |stem| <= k < |r| :: r[k] == PdfSuffix[k - |stem|];
  }

  /** A title of at most 50 characters made of allowed characters and spaces
      loses nothing: its file name is the title with underscores for spaces. */
  lemma SafeFileNameKeepsPlainTitle(title: string)
    requires |title| <= StemLimit
    requires forall k | 0 <= k < |title| :: FileNameChar(title[k]) || title[k] == ' '
    ensures SafeFileName(title) == ReplaceChar(title, ' ', '_') + PdfSuffix
  {
    var u := ReplaceChar(title, ' ', '_');
    assert u[..Min(StemLimit, |u|)] == u;
    KeepAllowedIsIdentity(u);
  }

  /** The title is cut before it is filtered: fifty disallowed characters
      followed by a letter leave an empty stem, although the letter would
      survive filtering. */
  lemma SafeFileNameCutsBeforeFiltering()
    ensures var title := seq(StemLimit, _ => '!') + "a";
      SafeFileName(title) == PdfSuffix && KeepFileNameChars(title) == "a"
  {
    var bangs := seq(StemLimit, _ => '!');
    var title := bangs + "a";
    var u := ReplaceChar(title, ' ', '_');
    assert u == title;
    assert u[..Min(StemLimit, |title|)] == bangs;
    NothingAllowed(bangs);
    assert KeepFileNameChars(bangs) == "";
    KeepFileNameCharsAppend(bangs, "a");
    KeepAllowedIsIdentity("a");
  }

  /** A string of disallowed characters keeps nothing. */
  lemma {:induction false} NothingAllowed(s: string)
    requires forall k | 0 <= k < |s| :: !FileNameChar(s[k])
    ensures KeepFileNameChars(s) == ""
  {
    if |s| > 0 {
      NothingAllowed(s[1..]);
    }
  }

  /** Filtering distributes over concatenation. */
  lemma {:induction false} KeepFileNameCharsAppend(a: string, b: string)
    ensures KeepFileNameChars(a + b) == KeepFileNameChars(a) + KeepFileNameChars(b)
  {
    if |a| > 0 {
      assert (a + b)[1..] == a[1..] + b;
      assert (a + b)[0] == a[0];
      KeepFileNameCharsAppend(a[1..], b);
    } else {
      assert a + b == b;
    }
  }

  lemma {:induction false} KeepAllowedIsIdentity(s: string)
    requires forall k | 0 <= k < |s| :: FileNameChar(s[k])
    ensures KeepFileNameChars(s) == s
  {
    if |s| > 0 {
      KeepAllowedIsIdentity(s[1..]);
      assert s == [s[0]] + s[1..];
    }
  }

  // ---------------------------------------------------------------------------
  // One entry, and the loop
  // ---------------------------------------------------------------------------

  /** `os.path.abspath(os.path.join("downloaded_papers", filename))`. */
  function LocalPath(io: Io, fileName: string): string {
    io.workDir + "/" + DownloadDir + "/" + fileName
  }

  /** The body of the `try`: a paper when title, id, download and write all
      succeed, nothing when any of them fails (the `continue`s). */
  function ParseEntry(entry: string, io: Io): Option<Paper> {
    match ExtractTitle(entry)
    case None => None
    case Some(title) =>
      match SearchId(entry)
      case None => None
      case Some(id) =>
        var url := PdfUrl(id);
        var name := SafeFileName(title);
        match io.download(url)
        case Err(_) => None
        case Ok(data) =>
          if io.save(DownloadDir + "/" + name, data) then Some(Paper(title, url, LocalPath(io, name)))
          else None
  }

  /** What a parsed paper is made of: the entry's title, the PDF URL of the
      id in the entry's leftmost id tag, and the file named after the title. */
  lemma ParsedPaper(entry: string, io: Io) returns (q: nat)
    requires ParseEntry(entry, io).Some?
    ensures var p := ParseEntry(entry, io).value;
      && Contains(entry, TitleOpen)
      && ExtractTitle(entry) == Some(p.title)
      && SearchId(entry).Some?
      && IdTagAt(entry, SearchId(entry).value, q)
      && (forall q': nat, id | q' < q :: !IdTagAt(entry, id, q'))
      && p.pdfUrl == PdfUrl(SearchId(entry).value)
      && p.localPath == LocalPath(io, SafeFileName(p.title))
  {
    q := SearchIdIsLeftmostMatch(entry);
  }

  /** The `continue`s: an entry without a title tag or without an id tag, or
      whose download or write fails, yields no paper. */
  lemma ParseEntrySkips(entry: string, io: Io)
    ensures !Contains(entry, TitleOpen) ==> ParseEntry(entry, io).None?
    ensures (forall p: nat, id | p <= |entry| :: !IdTagAt(entry, id, p)) ==> ParseEntry(entry, io).None?
    ensures ExtractTitle(entry).Some? && SearchId(entry).Some? ==>
      var url := PdfUrl(SearchId(entry).value);
      var file := DownloadDir + "/" + SafeFileName(ExtractTitle(entry).value);
      (io.download(url).Err? || !io.save(file, io.download(url).value)) ==> ParseEntry(entry, io).None?
  {
    var _ := SearchIdIsLeftmostMatch(entry);
  }

  /** An entry whose title, id, download and write all succeed yields the
      paper built from them: nothing else makes the loop skip an entry. */
  lemma ParseEntrySucceeds(entry: string, io: Io)
    requires ExtractTitle(entry).Some? && SearchId(entry).Some?
    requires var url := PdfUrl(SearchId(entry).value);
      var file := DownloadDir + "/" + SafeFileName(ExtractTitle(entry).value);
      io.download(url).Ok? && io.save(file, io.download(url).value)
    ensures var title := ExtractTitle(entry).value;
      ParseEntry(entry, io) == Some(Paper(title, PdfUrl(SearchId(entry).value), LocalPath(io, SafeFileName(title))))
  {
  }

  /** A paper as the response lists it: a title without line breaks, an arXiv
      PDF URL, and a `.pdf` file directly inside the download directory. */
  predicate WellFormedPaper(p: Paper, io: Io) {
    && '\n' !in p.title
    && StartsWith(p.pdfUrl, PdfUrlPrefix) && EndsWith(p.pdfUrl, PdfSuffix)
    && StartsWith(p.localPath, io.workDir + "/" + DownloadDir + "/")
    && EndsWith(p.localPath, PdfSuffix)
  }

  lemma ParsedPaperWellFormed(entry: string, io: Io)
    requires ParseEntry(entry, io).Some?
    ensures WellFormedPaper(ParseEntry(entry, io).value, io)
  {
    var title := ExtractTitle(entry).value;
    var id := SearchId(entry).value;
    assert ParseEntry(entry, io).value == Paper(title, PdfUrl(id), LocalPath(io, SafeFileName(title)));
    MadePaperWellFormed(title, id, io);
  }

  lemma MadePaperWellFormed(title: string, id: string, io: Io)
    requires '\n' !in title
    ensures WellFormedPaper(Paper(title, PdfUrl(id), LocalPath(io, SafeFileName(title))), io)
  {
    var name := SafeFileName(title);
    var dir := io.workDir + "/" + DownloadDir + "/";
    var path := LocalPath(io, name);
    assert path == dir + name;
    assert path[..|dir|] == dir;
    assert path[|path| - |PdfSuffix|..] == name[|name| - |PdfSuffix|..];
    var url := PdfUrl(id);
    assert url[..|PdfUrlPrefix|] == PdfUrlPrefix;
    assert url[|url| - |PdfSuffix|..] == PdfSuffix;
  }

  /** `ParseEntry` with the side effects fixed. */
  function Parser(io: Io): string -> Option<Paper> {
    entry => ParseEntry(entry, io)
  }

  /** The papers a run of entries yields, in entry order. */
  function Collect(entries: seq<string>, parse: string -> Option<Paper>): (r: seq<Paper>)
    ensures |r| <= |entries|
  {
    if |entries| == 0 then []
    else
      var rest := Collect(entries[1..], parse);
      match parse(entries[0])
      case None => rest
      case Some(p) => [p] + rest
  }

  /** Entries are processed independently and in order: collecting a
      concatenation is concatenating the collections. */
  lemma {:induction false} CollectAppend(a: seq<string>, b: seq<string>, parse: string -> Option<Paper>)
    ensures Collect(a + b, parse) == Collect(a, parse) + Collect(b, parse)
  {
    if |a| > 0 {
      assert (a + b)[1..] == a[1..] + b;
      assert (a + b)[0] == a[0];
      CollectAppend(a[1..], b, parse);
    } else {
      assert a + b == b;
    }
  }

  /** Every collected paper is what some entry of the run parses to. */
  lemma {:induction false} CollectedComeFromEntries(entries: seq<string>, parse: string -> Option<Paper>, j: nat)
    returns (k: nat)
    requires j < |Collect(entries, parse)|
    ensures k < |entries| && parse(entries[k]) == Some(Collect(entries, parse)[j])
  {
    var rest := Collect(entries[1..], parse);
    match parse(entries[0])
    case None =>
      var k' := CollectedComeFromEntries(entries[1..], parse, j);
      k := k' + 1;
    case Some(p) =>
      if j == 0 {
        k := 0;
      } else {
        assert Collect(entries, parse)[j] == rest[j - 1];
        var k' := CollectedComeFromEntries(entries[1..], parse, j - 1);
        k := k' + 1;
      }
  }

  /** The `for entry in ...` loop: each entry in turn, appending the paper it
      yields, if any. */
  method CollectEntries(entries: seq<string>, parse: string -> Option<Paper>) returns (papers: seq<Paper>)
    ensures papers == Collect(entries, parse)
  {
    papers := [];
    for i := 0 to |entries|
      invariant papers == Collect(entries[..i], parse)
    {
      CollectAppend(entries[..i], [entries[i]], parse);
      assert entries[..i + 1] == entries[..i] + [entries[i]];
      match parse(entries[i])
      case Some(p) =>
        papers := papers + [p];
      case None =>
    }
    assert entries[..|entries|] == entries;
  }

  /** `fetch_papers`: the feed request's error becomes the endpoint's error;
      otherwise the examined entries are parsed one by one and the papers that
      made it are returned in feed order. */
  method FetchPapers(response: Result<string>, maxResults: int, io: Io) returns (r: Result<seq<Paper>>)
    ensures response.Err? ==> r == Err(QueryFailed + response.error)
    ensures response.Ok? ==> r == Ok(Collect(ExaminedEntries(response.value, maxResults), Parser(io)))
    ensures r.Ok? && maxResults >= 0 ==> |r.value| <= maxResults
  {
    if response.Err? {
      return Err(QueryFailed + response.error);
    }
    var entries := ExaminedEntries(response.value, maxResults);
    var papers := CollectEntries(entries, Parser(io));
    return Ok(papers);
  }

  /** Every returned paper is well formed. */
  lemma FetchedPaperShape(content: string, maxResults: int, io: Io, j: nat)
    requires j < |Collect(ExaminedEntries(content, maxResults), Parser(io))|
    ensures WellFormedPaper(Collect(ExaminedEntries(content, maxResults), Parser(io))[j], io)
  {
    var entries := ExaminedEntries(content, maxResults);
    var k := CollectedComeFromEntries(entries, Parser(io), j);
    assert Parser(io)(entries[k]) == ParseEntry(entries[k], io);
    ParsedPaperWellFormed(entries[k], io);
  }
}
