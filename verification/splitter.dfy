/** The page-split pipeline, `splitPdf` (src/services/pdfService.ts:91-171):
    load the document, name and extract every page in order into an
    archive, and report progress through `onProgress` along the way.

    The PDF and ZIP libraries are not modelled. The loaded document is its
    page count, or the value its loading threw; an extracted page is the
    abstract value `SinglePage(i)`; the archive is a map from entry name to
    page; a later library call that throws is an input `Fault`. The
    progress callback is the sequence of statuses it receives. */
module Splitter {
  import opened Outcomes
  import opened JsText
  import opened Types
  import opened FileNames
  import opened RollingLogs

  /** A thrown value as the `catch` block sees it. */
  datatype Thrown = ErrorObject(message: string) | OtherValue

  /** `error instanceof Error ? error.message : 'An unknown error occurred'`. */
  function ErrorMessage(thrown: Thrown): string {
    match thrown
    case ErrorObject(m) => m
    case OtherValue => "An unknown error occurred"
  }

  /** What reading and loading the uploaded bytes gives. */
  datatype SourceDoc = Document(pageCount: nat) | Unreadable(thrown: Thrown)

  datatype PdfFile = PdfFile(name: string, content: SourceDoc)

  /** A library call after loading that throws: extracting or saving page
      `page`, or generating the archive. */
  datatype Fault = NoFault | PageFault(page: nat, thrown: Thrown) | ArchiveFault(thrown: Thrown)

  /** The saved single-page document holding page `sourcePage` of the source. */
  datatype PageFile = SinglePage(sourcePage: nat)

  type Archive = map<string, PageFile>

  // ---------------------------------------------------------------------
  // Specification
  // ---------------------------------------------------------------------

  /** The archive entry name of page `i`. */
  function EntryName(i: nat, file: PdfFile, csvData: seq<CsvRow>, config: NamingConfig): string {
    GenerateFileName(i, config, file.name, csvData) + ".pdf"
  }

  /** The entry names of pages `0 .. n-1`, in page order. */
  function EntryNames(n: nat, file: PdfFile, csvData: seq<CsvRow>, config: NamingConfig): (names: seq<string>)
    ensures |names| == n && forall i :: 0 <= i < n ==> names[i] == EntryName(i, file, csvData, config)
  {
    seq(n, i requires 0 <= i < n => EntryName(i, file, csvData, config))
  }

  /** The archive after `names[i]` has been set to page `i` for each `i`
      in turn. */
  function ArchiveOf(names: seq<string>): Archive {
    if names == [] then map[]
    else ArchiveOf(names[..|names| - 1])[names[|names| - 1] := SinglePage(|names| - 1)]
  }

  function LoadingLine(file: PdfFile): string {
    "Loading PDF: " + file.name
  }

  const CompilingLine := "Compiling ZIP archive..."
  const GeneratedLine := "Successfully generated ZIP."

  /** Every line passed to `addLog` once the pages named `names` have been
      extracted. */
  function History(loading: string, names: seq<string>): (lines: seq<string>)
    ensures |lines| == |names| + 1
  {
    if names == [] then [loading]
    else History(loading, names[..|names| - 1]) + ["Extracted: " + names[|names| - 1]]
  }

  /** The log lines of a run: the loading line, then one `Extracted` line
      per page in page order. */
  lemma {:induction false} HistoryLines(loading: string, names: seq<string>)
    ensures var lines := History(loading, names);
            && lines[0] == loading
            && forall i :: 0 <= i < |names| ==> lines[i + 1] == "Extracted: " + names[i]
  {
    if names != [] {
      var init := names[..|names| - 1];
      HistoryLines(loading, init);
      var lines, prev := History(loading, names), History(loading, init);
      assert forall i :: 0 <= i < |prev| ==> lines[i] == prev[i];
    }
  }

  /** The start event for `n` pages and the events of the pages named
      `names`. */
  function Progress(n: nat, loading: string, names: seq<string>): seq<ProcessingStatus> {
    if names == [] then
      [ProcessingStatus(n, 0, "Analyzing " + Decimal(n) + " pages...", false, None, Window(History(loading, [])))]
    else
      var k := |names|;
      Progress(n, loading, names[..k - 1])
        + [ProcessingStatus(n, k, "Processing page " + Decimal(k) + "/" + Decimal(n), false, None,
                            Window(History(loading, names)))]
  }

  /** What the `try` block reports and logs, and how it ends. */
  datatype Attempt = Attempt(events: seq<ProcessingStatus>, history: seq<string>, outcome: Result<Archive, Thrown>)

  function TryBlock(file: PdfFile, csvData: seq<CsvRow>, config: NamingConfig, fault: Fault): Attempt {
    var loading := LoadingLine(file);
    match file.content
    case Unreadable(thrown) =>
      Attempt([], [loading], Failure(thrown))
    case Document(n) =>
      DocumentAttempt(n, loading, EntryNames(n, file, csvData, config), fault)
  }

  /** The `try` block once a document of `n` pages has been loaded and its
      pages are to be named `names`. */
  function DocumentAttempt(n: nat, loading: string, names: seq<string>, fault: Fault): Attempt
    requires |names| == n
  {
    if fault.PageFault? && fault.page < n then
      Attempt(Progress(n, loading, names[..fault.page]),
              History(loading, names[..fault.page + 1]), Failure(fault.thrown))
    else
      var h := History(loading, names) + [CompilingLine];
      var archiving := ProcessingStatus(n, n, "Generating ZIP archive...", false, None, Window(h));
      if fault.ArchiveFault? then
        Attempt(Progress(n, loading, names) + [archiving], h, Failure(fault.thrown))
      else
        var finished := ProcessingStatus(n, n, "Finished!", true, None, Window(h + [GeneratedLine]));
        Attempt(Progress(n, loading, names) + [archiving, finished], h + [GeneratedLine],
                Success(ArchiveOf(names)))
  }

  /** The one event of the `catch` block. Its log is a copy of the rolling
      log with the error line added past the capacity. */
  function ErrorStatus(message: string, log: seq<string>): ProcessingStatus {
    ProcessingStatus(0, 0, "Error occurred", false, Some(message), log + ["ERROR: " + message])
  }

  /** Everything `onProgress` receives once the `try` block has ended as
      `attempt`: its events, then the error event when it threw. */
  function Reported(attempt: Attempt): seq<ProcessingStatus> {
    match attempt.outcome
    case Success(_) => attempt.events
    case Failure(thrown) => attempt.events + [ErrorStatus(ErrorMessage(thrown), Window(attempt.history))]
  }

  /** Everything `onProgress` receives during one `splitPdf` call. */
  function SplitEvents(file: PdfFile, csvData: seq<CsvRow>, config: NamingConfig, fault: Fault): seq<ProcessingStatus> {
    Reported(TryBlock(file, csvData, config, fault))
  }

  /** Whether the run reaches the end of the `try` block. */
  predicate Succeeds(file: PdfFile, fault: Fault) {
    && file.content.Document?
    && !fault.ArchiveFault?
    && !(fault.PageFault? && fault.page < file.content.pageCount)
  }

  // ---------------------------------------------------------------------
  // The pipeline
  // ---------------------------------------------------------------------

  /** The `try` block of `splitPdf`, with `log` the list behind `addLog`. */
  method TryPipeline(file: PdfFile, csvData: seq<CsvRow>, config: NamingConfig, fault: Fault, log: RollingLog)
    returns (events: seq<ProcessingStatus>, outcome: Result<Archive, Thrown>)
    requires log.Valid() && log.history == []
    modifies log
    ensures log.Valid()
    ensures var attempt := TryBlock(file, csvData, config, fault);
            events == attempt.events && log.history == attempt.history && outcome == attempt.outcome
  {
    var loading := LoadingLine(file);
    log.Add(loading);
    if file.content.Unreadable? {
      return [], Failure(file.content.thrown);
    }
    var pageCount := file.content.pageCount;
    ghost var names := EntryNames(pageCount, file, csvData, config);
    ghost var attempt := DocumentAttempt(pageCount, loading, names, fault);
    assert TryBlock(file, csvData, config, fault) == attempt;
    var archive, stopped;
    events, archive, stopped := ExtractPages(file, csvData, config, fault, log, pageCount, loading, names);
    if stopped {
      assert attempt == Attempt(Progress(pageCount, loading, names[..fault.page]),
                                History(loading, names[..fault.page + 1]), Failure(fault.thrown));
      return events, Failure(fault.thrown);
    }
    events, outcome := FinishArchive(pageCount, loading, names, fault, log, events, archive);
  }

  /** The end of the `try` block once every page is in the archive: log
      and report the archiving, generate the archive (which may throw), then
      log and report completion. */
  method FinishArchive(n: nat, loading: string, ghost names: seq<string>, fault: Fault, log: RollingLog,
                       pageEvents: seq<ProcessingStatus>, archive: Archive)
    returns (events: seq<ProcessingStatus>, outcome: Result<Archive, Thrown>)
    requires |names| == n && !(fault.PageFault? && fault.page < n)
    requires log.Valid() && log.history == History(loading, names)
    requires pageEvents == Progress(n, loading, names) && archive == ArchiveOf(names)
    modifies log
    ensures log.Valid()
    ensures var attempt := DocumentAttempt(n, loading, names, fault);
            events == attempt.events && log.history == attempt.history && outcome == attempt.outcome
  {
    ghost var h := History(loading, names) + [CompilingLine];
    log.Add(CompilingLine);
    var archiving := ProcessingStatus(n, n, "Generating ZIP archive...", false, None, log.entries);
    events := pageEvents + [archiving];
    if fault.ArchiveFault? {
      return events, Failure(fault.thrown);
    }
    log.Add(GeneratedLine);
    var finished := ProcessingStatus(n, n, "Finished!", true, None, log.entries);
    events := events + [finished];
    outcome := Success(archive);
    assert events == Progress(n, loading, names) + [archiving, finished];
  }

  /** The state of the `try` block once the first `i` pages named in
      `names` are done: what was logged, what was reported and what the
      archive holds. */
  ghost predicate PagesDone(n: nat, loading: string, names: seq<string>, i: nat,
                            history: seq<string>, events: seq<ProcessingStatus>, archive: Archive)
  {
    && i <= |names|
    && history == History(loading, names[..i])
    && events == Progress(n, loading, names[..i])
    && archive == ArchiveOf(names[..i])
  }

  /** The start event and the page loop of the `try` block: each page is
      named, logged, extracted into the archive and reported, until the
      pages run out or extracting page `fault.page` throws, which `stopped`
      reports. */
  method ExtractPages(file: PdfFile, csvData: seq<CsvRow>, config: NamingConfig, fault: Fault, log: RollingLog,
                      pageCount: nat, loading: string, ghost names: seq<string>)
    returns (events: seq<ProcessingStatus>, archive: Archive, stopped: bool)
    requires log.Valid() && log.history == [loading]
    requires names == EntryNames(pageCount, file, csvData, config)
    modifies log
    ensures log.Valid()
    ensures stopped <==> fault.PageFault? && fault.page < pageCount
    ensures stopped ==> events == Progress(pageCount, loading, names[..fault.page])
                        && log.history == History(loading, names[..fault.page + 1])
    ensures !stopped ==> events == Progress(pageCount, loading, names)
                         && log.history == History(loading, names)
                         && archive == ArchiveOf(names)
  {
    archive := map[];
    events := [ProcessingStatus(pageCount, 0, "Analyzing " + Decimal(pageCount) + " pages...",
                                false, None, log.entries)];
    var i := 0;
    assert names[..i] == [];
    while i < pageCount
      invariant 0 <= i <= pageCount
      invariant log.Valid() && PagesDone(pageCount, loading, names, i, log.history, events, archive)
      invariant fault.PageFault? ==> fault.page >= i
    {
      var fileName := GenerateFileName(i, config, file.name, csvData);
      var pageStopped;
      events, archive, pageStopped := ExtractPage(pageCount, loading, names, i, fileName + ".pdf", fault, log,
                                                  events, archive);
      if pageStopped {
        return events, archive, true;
      }
      i := i + 1;
    }
    assert names[..pageCount] == names;
    stopped := false;
  }

  /** One turn of the page loop for page `i`, whose entry name is `entry`:
      log it, extract it (which may throw), put it into the archive and
      report it. */
  method ExtractPage(pageCount: nat, loading: string, ghost names: seq<string>, i: nat, entry: string,
                     fault: Fault, log: RollingLog, pageEvents: seq<ProcessingStatus>, pages: Archive)
    returns (events: seq<ProcessingStatus>, archive: Archive, stopped: bool)
    requires i < |names| && names[i] == entry
    requires log.Valid() && PagesDone(pageCount, loading, names, i, log.history, pageEvents, pages)
    modifies log
    ensures log.Valid()
    ensures stopped <==> fault.PageFault? && fault.page == i
    ensures stopped ==> events == Progress(pageCount, loading, names[..i])
                        && log.history == History(loading, names[..i + 1])
    ensures !stopped ==> PagesDone(pageCount, loading, names, i + 1, log.history, events, archive)
  {
    RunStep(pageCount, loading, names, i);
    log.Add("Extracted: " + entry);
    if fault.PageFault? && fault.page == i {
      return pageEvents, pages, true;
    }
    archive := pages[entry := SinglePage(i)];
    events := pageEvents + [ProcessingStatus(pageCount, i + 1,
                                             "Processing page " + Decimal(i + 1) + "/" + Decimal(pageCount),
                                             false, None, log.entries)];
    stopped := false;
  }

  /** Extending the pages done by page `i` adds its `Extracted` line, its
      progress event and its archive entry. */
  lemma {:induction false} RunStep(n: nat, loading: string, names: seq<string>, i: nat)
    requires i < |names|
    ensures History(loading, names[..i + 1]) == History(loading, names[..i]) + ["Extracted: " + names[i]]
    ensures Progress(n, loading, names[..i + 1])
              == Progress(n, loading, names[..i])
                 + [ProcessingStatus(n, i + 1, "Processing page " + Decimal(i + 1) + "/" + Decimal(n), false, None,
                                     Window(History(loading, names[..i + 1])))]
    ensures ArchiveOf(names[..i + 1]) == ArchiveOf(names[..i])[names[i] := SinglePage(i)]
  {
    assert names[..i + 1][..i] == names[..i];
  }

  /** `splitPdf`: the `try` block, then the `catch` block's error event
      and rethrow when a step threw. */
  method SplitPdf(file: PdfFile, csvData: seq<CsvRow>, config: NamingConfig, fault: Fault)
    returns (events: seq<ProcessingStatus>, result: Result<Archive, Thrown>)
    ensures events == SplitEvents(file, csvData, config, fault)
    ensures result == TryBlock(file, csvData, config, fault).outcome
    ensures result.Success? <==> Succeeds(file, fault)
  {
    var log := new RollingLog();
    events, result := TryPipeline(file, csvData, config, fault, log);
    if result.Failure? {
      var message := ErrorMessage(result.error);
      events := events + [ErrorStatus(message, log.entries)];
    }
  }

  // ---------------------------------------------------------------------
  // Properties of the progress protocol
  // ---------------------------------------------------------------------

  /** The start event and the page events: `current` counts up from 0 by
      one, `total` is the page count, none is complete or an error, and
      each log is within capacity. */
  lemma {:induction false} ProgressShape(n: nat, loading: string, names: seq<string>)
    ensures var ev := Progress(n, loading, names);
            && |ev| == |names| + 1
            && (forall j :: 0 <= j < |ev| ==> ev[j].current == j && ev[j].total == n)
            && (forall j :: 0 <= j < |ev| ==> !ev[j].isComplete && ev[j].error == None)
            && (forall j :: 0 <= j < |ev| ==> |ev[j].log| <= Capacity)
  {
    if names != [] {
      var init := names[..|names| - 1];
      ProgressShape(n, loading, init);
      var prev := Progress(n, loading, init);
      var ev := Progress(n, loading, names);
      assert forall j :: 0 <= j < |prev| ==> ev[j] == prev[j];
    }
  }

  /** The log each page event carries is the last lines logged up to and
      including that page's `Extracted` line. */
  lemma {:induction false} ProgressLog(n: nat, loading: string, names: seq<string>, j: nat)
    requires j <= |names|
    ensures |Progress(n, loading, names)| == |names| + 1
    ensures Progress(n, loading, names)[j].log == Window(History(loading, names[..j]))
  {
    ProgressShape(n, loading, names);
    if names != [] {
      var init := names[..|names| - 1];
      assert names[..|names|] == names;
      if j < |names| {
        ProgressLog(n, loading, init, j);
        assert init[..j] == names[..j];
      }
    }
  }

  /** A run over a loaded document of `n` pages, whatever names its pages
      get, that gets through: the start event with `current = 0`, exactly
      one event per page with `current = 1 .. n` strictly increasing, the
      archiving event and then the only complete event, both at
      `current = total = n`; no event carries an error, every log is within
      capacity, and the archive of all pages is returned. */
  lemma {:induction false} SuccessProtocol(n: nat, loading: string, names: seq<string>, fault: Fault)
    requires |names| == n
    requires !fault.ArchiveFault? && !(fault.PageFault? && fault.page < n)
    ensures var ev := Reported(DocumentAttempt(n, loading, names, fault));
            && |ev| == n + 3
            && ev[0].current == 0 && ev[0].total == n
            && (forall k :: 1 <= k <= n ==> ev[k].current == k && ev[k].total == n)
            && (forall a, b :: 0 <= a < b <= n ==> ev[a].current < ev[b].current)
            && ev[n + 1].current == n && ev[n + 1].total == n
            && ev[n + 2].current == n && ev[n + 2].total == n
            && (forall k :: 0 <= k < |ev| ==> (ev[k].isComplete <==> k == n + 2))
            && (forall k :: 0 <= k < |ev| ==> ev[k].error == None && |ev[k].log| <= Capacity)
            && DocumentAttempt(n, loading, names, fault).outcome == Success(ArchiveOf(names))
  {
    ProgressShape(n, loading, names);
  }

  /** A run over a loaded document of `n` pages in which a library call
      throws: the `catch` block adds exactly one event, the last one, with
      `total = current = 0`, not complete and carrying the message; its log
      is the rolling log plus the error line, so it can hold one line more
      than the capacity. No earlier event is complete or an error. A
      failing page `p` comes after the start event and `p` page events; a
      failing archive after all page events and the archiving event. */
  lemma {:induction false} FailureProtocol(n: nat, loading: string, names: seq<string>, fault: Fault)
    requires |names| == n
    requires fault.ArchiveFault? || (fault.PageFault? && fault.page < n)
    ensures var ev := Reported(DocumentAttempt(n, loading, names, fault));
            && |ev| >= 1
            && var last := ev[|ev| - 1];
            && last.total == 0 && last.current == 0 && !last.isComplete
            && last.error == Some(ErrorMessage(fault.thrown))
            && |last.log| <= Capacity + 1
            && last.log[|last.log| - 1] == "ERROR: " + ErrorMessage(fault.thrown)
            && (forall k :: 0 <= k < |ev| - 1 ==> ev[k].error == None && !ev[k].isComplete)
            && (fault.PageFault? ==> |ev| == fault.page + 2)
            && (fault.ArchiveFault? ==> |ev| == n + 3)
            && DocumentAttempt(n, loading, names, fault).outcome == Failure(fault.thrown)
  {
    if fault.PageFault? {
      ProgressShape(n, loading, names[..fault.page]);
    } else {
      ProgressShape(n, loading, names);
    }
  }

  /** A document that cannot be read or loaded: the only event is the
      error event, whose log is the loading line and the error line. */
  lemma {:induction false} UnreadableProtocol(file: PdfFile, csvData: seq<CsvRow>, config: NamingConfig, fault: Fault)
    requires file.content.Unreadable?
    ensures var message := ErrorMessage(file.content.thrown);
            SplitEvents(file, csvData, config, fault)
              == [ProcessingStatus(0, 0, "Error occurred", false, Some(message),
                                   [LoadingLine(file), "ERROR: " + message])]
  {
    var loading, thrown := LoadingLine(file), file.content.thrown;
    assert TryBlock(file, csvData, config, fault) == Attempt([], [loading], Failure(thrown));
    assert Window([loading]) == [loading];
    assert [loading] + ["ERROR: " + ErrorMessage(thrown)] == [loading, "ERROR: " + ErrorMessage(thrown)];
    assert [] + [ErrorStatus(ErrorMessage(thrown), [loading])]
        == [ProcessingStatus(0, 0, "Error occurred", false, Some(ErrorMessage(thrown)),
                             [loading, "ERROR: " + ErrorMessage(thrown)])];
  }

  /** A loaded document runs the pages it has, named by the naming policy. */
  lemma {:induction false} LoadedRun(file: PdfFile, csvData: seq<CsvRow>, config: NamingConfig, fault: Fault)
    requires file.content.Document?
    ensures var n := file.content.pageCount;
            TryBlock(file, csvData, config, fault)
              == DocumentAttempt(n, LoadingLine(file), EntryNames(n, file, csvData, config), fault)
  {
  }

  // ---------------------------------------------------------------------
  // Properties of the archive
  // ---------------------------------------------------------------------

  /** The archive holds exactly the names inserted. */
  lemma {:induction false} ArchiveKeys(names: seq<string>)
    ensures ArchiveOf(names).Keys == set i | 0 <= i < |names| :: names[i]
  {
    if names != [] {
      var init := names[..|names| - 1];
      ArchiveKeys(init);
      assert (set i | 0 <= i < |names| :: names[i])
          == (set i | 0 <= i < |init| :: init[i]) + {names[|names| - 1]};
    }
  }

  /** `p` is the last position of `name` in `names`. */
  predicate LastOccurrence(names: seq<string>, name: string, p: nat) {
    p < |names| && names[p] == name && forall q :: p < q < |names| ==> names[q] != name
  }

  /** Under each name the archive holds the last page given that name:
      a later page overwrites an earlier one with the same name. */
  lemma {:induction false} ArchiveLastWriteWins(names: seq<string>)
    ensures forall name :: name in ArchiveOf(names) ==> LastOccurrence(names, name, ArchiveOf(names)[name].sourcePage)
  {
    if names != [] {
      var k := |names| - 1;
      var init := names[..k];
      ArchiveLastWriteWins(init);
      var prev, archive := ArchiveOf(init), ArchiveOf(names);
      forall name | name in archive
        ensures LastOccurrence(names, name, archive[name].sourcePage)
      {
        if name == names[k] {
          assert archive[name] == SinglePage(k);
        } else {
          assert name in prev && archive[name] == prev[name];
          assert LastOccurrence(init, name, prev[name].sourcePage);
        }
      }
    }
  }

  /** Distinct names never overwrite each other: one entry per page. */
  lemma {:induction false} ArchiveSizeOfDistinct(names: seq<string>)
    requires forall i, j :: 0 <= i < j < |names| ==> names[i] != names[j]
    ensures |ArchiveOf(names)| == |names|
  {
    if names != [] {
      var init := names[..|names| - 1];
      ArchiveSizeOfDistinct(init);
      ArchiveKeys(init);
      assert names[|names| - 1] !in ArchiveOf(init);
    }
  }

  /** The archive never has more entries than pages were inserted. */
  lemma {:induction false} ArchiveSizeAtMost(names: seq<string>)
    ensures |ArchiveOf(names)| <= |names|
  {
    if names != [] {
      ArchiveSizeAtMost(names[..|names| - 1]);
    }
  }

  /** Two pages with the same name cost the archive an entry: the later
      page replaces the earlier one. */
  lemma {:induction false} ArchiveShrinksOnDuplicate(names: seq<string>, i: nat, j: nat)
    requires i < j < |names| && names[i] == names[j]
    ensures |ArchiveOf(names)| < |names|
  {
    var k := |names| - 1;
    var init := names[..k];
    if j < k {
      ArchiveShrinksOnDuplicate(init, i, j);
    } else {
      ArchiveKeys(init);
      assert names[k] == init[i];
      assert names[k] in ArchiveOf(init);
      ArchiveSizeAtMost(init);
    }
  }

  /** The archive has one entry per page exactly when all names differ. */
  lemma {:induction false} ArchiveSizeExact(names: seq<string>)
    ensures |ArchiveOf(names)| == |names| <==> forall i, j :: 0 <= i < j < |names| ==> names[i] != names[j]
  {
    if forall i, j :: 0 <= i < j < |names| ==> names[i] != names[j] {
      ArchiveSizeOfDistinct(names);
    } else {
      var i, j :| 0 <= i < j < |names| && names[i] == names[j];
      ArchiveShrinksOnDuplicate(names, i, j);
    }
  }

  /** With numbering on, no two pages of a run share an entry name. */
  lemma {:induction false} EntryNamesDistinct(i: nat, j: nat, file: PdfFile, csvData: seq<CsvRow>, config: NamingConfig)
    requires Numbers(config) && i != j
    ensures EntryName(i, file, csvData, config) != EntryName(j, file, csvData, config)
  {
    var a, b := GenerateFileName(i, config, file.name, csvData), GenerateFileName(j, config, file.name, csvData);
    if i < j {
      NumberedNamesDistinct(i, j, config, file.name, csvData);
    } else {
      NumberedNamesDistinct(j, i, config, file.name, csvData);
    }
    assert (a + ".pdf")[..|a|] == a && (b + ".pdf")[..|b|] == b;
  }

  /** The archive of a run has one entry per page name; when names are
      numbered no page overwrites another, so it has exactly one entry per
      page. */
  lemma {:induction false} ArchiveOfRun(n: nat, file: PdfFile, csvData: seq<CsvRow>, config: NamingConfig)
    ensures ArchiveOf(EntryNames(n, file, csvData, config)).Keys
              == set i | 0 <= i < n :: EntryName(i, file, csvData, config)
    ensures Numbers(config) ==> |ArchiveOf(EntryNames(n, file, csvData, config))| == n
  {
    var names := EntryNames(n, file, csvData, config);
    ArchiveKeys(names);
    assert (set i | 0 <= i < |names| :: names[i]) == set i | 0 <= i < n :: EntryName(i, file, csvData, config);
    if Numbers(config) {
      forall i, j | 0 <= i < j < |names|
        ensures names[i] != names[j]
      {
        EntryNamesDistinct(i, j, file, csvData, config);
      }
      ArchiveSizeOfDistinct(names);
    }
  }
}
