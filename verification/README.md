# pdf-splitter core, modelled in Dafny

pdf-splitter is a browser tool that splits a multi-page PDF into one
single-page PDF per page. It names each page by a configurable policy and
packs the pages into a ZIP archive. It reports progress to the page through
an `onProgress` callback. All of its logic sits in
`src/services/pdfService.ts`, and this project models the four pieces of
that file.

- **The naming policy `generateFileName`** (module `FileNames`, with the
  JavaScript built-ins it relies on in `JsText`). It takes a page index, the
  naming configuration, the source file name and the CSV rows. It:
  - strips the source name's extension with `/\.[^/.]+$/`;
  - pads `startNumber + index` with zeros to `padding` digits;
  - picks a base, and whether to number it, from one of four strategies
    (`default`, `custom`, `csv`, `manual`);
  - joins number and base with `_` on the configured side;
  - replaces each of `/ \ ? % * : | " < >` with `-`.
- **The rolling log `addLog`** (module `RollingLogs`). This is a class over
  the list it updates in place: push, then drop the oldest line once the list
  holds more than ten.
- **The pipeline `splitPdf`** (module `Splitter`). Its `try` block is an
  imperative method over a `RollingLog`. It loads the document, emits the
  start event, then runs a page loop that names, logs, extracts and archives
  each page and reports it. After the loop it emits the archiving event,
  generates the archive and emits the completion event. The `catch` block
  emits one error event and fails the call.
- **The header-less branch of `parseCsv`** (module `CsvReader`). The rows
  the CSV tokenizer produced become records keyed by cell position, and the
  column identifiers are `"0" .. "w-1"`, where `w` is the widest row.

The records of `src/types.ts` are in `Types`. The `Option` and `Result`
wrappers are in `Outcomes`. `NamingExamples` works the policy through
concrete inputs, such as page 5 of `Report.pdf` becoming `Report_05`.

Each imperative operation is a method proved against a specification
function:
- `RollingLog.Add` against `Step` and `Window`;
- `RowToRecord` and `ParseHeaderless` against `Assigned` and `Records`;
- `TryPipeline`, `ExtractPages` and `FinishArchive` against `TryBlock`,
  `DocumentAttempt`, `Progress`, `History` and `ArchiveOf`. The body of the
  page loop is the method `ExtractPage`, which `ExtractPages` calls once per
  page.

The properties are proved about those functions.

How the libraries and the environment appear in the model:
- **Document.** The loaded document is its page count, or the value its
  loading threw (`SourceDoc`).
- **Pages and archive.** An extracted page is the abstract value
  `SinglePage(i)`, and the ZIP archive is a map from entry name to page.
- **Library failures.** A pdf-lib or JSZip call that throws after loading
  is an input, `Fault`. It names the page whose extraction fails, or it
  names archive generation.
- **Progress callback.** The callback is the sequence of statuses it
  receives.

Some of the code's behaviour may not be what a reader expects, and the
model follows the code:
- **Extension stripping.** One might expect the last extension to be
  stripped whatever it is. The code strips only a final `.` followed by one
  or more characters that are neither `.` nor `/`. `"x."` and
  `"dir.d/file"` are kept whole.
- **Error event log.** Every other progress log holds at most ten lines. The
  error event's log is the rolling log plus the `ERROR:` line, so it can
  hold eleven (`FailureProtocol`).
- **Error message.** The error event's `message` field is always
  `Error occurred`. Its `error` field holds `error.message`, which may be the
  empty string.
- **Number ranges.** The form offers paddings 1 to 5 and a start number that
  `parseInt(...) || 0` reads, which can still be negative
  (src/components/PdfSplitter.tsx:488-506). The model takes any integer for
  both. `toString` of a negative sum gives a leading `-`, and `padStart` pads
  in front of it. Numbered names of different pages still differ whatever the
  sign (`NumberedNamesDistinct`). The read-back properties are proved for a
  non-negative sum.
  JavaScript adds `startNumber + index` in double precision, which the
  model does not capture (see "Left out").
- **Name collisions.** With duplicate names the code lets a later page
  replace an earlier one in the archive. `ArchiveLastWriteWins` and
  `ArchiveSizeExact` state exactly when this happens.

## Model

| member | source | states |
|---|---|---|
| FileNames.Sanitize | src/services/pdfService.ts:88 | every forbidden character becomes `-`, every other character stays at its position, the length is kept and the result holds no forbidden character |
| FileNames.SanitizeConcat | src/services/pdfService.ts:88 | the global replace works character by character, so it distributes over concatenation |
| FileNames.SanitizeKeepsClean | src/services/pdfService.ts:88 | a name without forbidden characters is unchanged, so sanitising is idempotent |
| FileNames.ExtTailLength | src/services/pdfService.ts:45 | the longest suffix made of characters other than `.` and `/`: all of its characters qualify and the one before it does not |
| FileNames.CleanSource | src/services/pdfService.ts:45 | the `replace` with `/\.[^/.]+$/`: cut before the dot when the longest run of extension characters at the end is non-empty, is not the whole name and follows a dot; otherwise the name unchanged |
| FileNames.CleanSourcePrefix | src/services/pdfService.ts:45 | the clean name is a prefix of the source name, and when it is shorter the pattern matches exactly where it ends |
| FileNames.CleanSourceStrips | src/services/pdfService.ts:45 | where `\.[^/.]+$` matches at a dot, the clean name is everything before that dot |
| FileNames.CleanSourceKeeps | src/services/pdfService.ts:45 | where the pattern matches nowhere, the name is kept whole |
| FileNames.ExtensionUnique | src/services/pdfService.ts:45 | the pattern can match at one position only |
| FileNames.PageNumber | src/services/pdfService.ts:46 | `(startNumber + index).toString().padStart(padding, '0')`; it is never shorter than `padding` and never empty |
| FileNames.PageNumberValue | src/services/pdfService.ts:46 | for `startNumber + index >= 0` the number is the decimal numeral left-padded with `0` to `max(padding, digits)`, never truncated, and its digits read back as `startNumber + index` |
| FileNames.PageNumberClean | src/services/pdfService.ts:46 | the page number (digits, zeros, possibly a minus sign) contains no forbidden character |
| FileNames.PageLabel | src/services/pdfService.ts:56 | the fallback base `Page_<index + 1>` of the csv and manual strategies |
| FileNames.PageLabelReadsBack | src/services/pdfService.ts:56 | the fallback is `Page_` followed by a digit block that reads back as `index + 1` |
| FileNames.NonBlank | src/services/pdfService.ts:61 | the `filter` of blank lines; it keeps at most as many lines as it is given |
| FileNames.NonBlankKeeps | src/services/pdfService.ts:61 | the filter keeps exactly the lines that are not blank after trimming |
| FileNames.NonBlankCons | src/services/pdfService.ts:61 | the filter drops a blank first line and keeps a non-blank one in front of the filtered rest |
| FileNames.NonBlankConcat | src/services/pdfService.ts:61-63 | the filter works line by line: filtering a concatenation concatenates the filtered parts, so the kept lines keep their order and repetitions |
| FileNames.ManualLines | src/services/pdfService.ts:61 | the manual names, or the empty string when absent, split on line breaks, with the blank lines filtered out |
| FileNames.ManualLinesClean | src/services/pdfService.ts:61-63 | every manual line is non-blank and holds no line break |
| FileNames.HasCsvCell | src/services/pdfService.ts:53 | the guard of the csv strategy: the column is named, row `index` exists and holds a non-empty cell under the column |
| FileNames.ChooseBase | src/services/pdfService.ts:51-77 | the `switch`: the base and whether it is numbered, per strategy; the numbering flag is `addNumberToCsv` for csv, `addNumberToManual` for manual and always on for custom and default |
| FileNames.Joined | src/services/pdfService.ts:79-86 | `finalName`: the base alone, or joined to the number by `_` before it (prefix) or after it (suffix) |
| FileNames.GenerateFileName | src/services/pdfService.ts:39-89 | the generated name never contains any of the ten characters the replace pattern lists (slash, backslash, question mark, percent, star, colon, vertical bar, double quote, less-than, greater-than) |
| FileNames.NameShape | src/services/pdfService.ts:79-88 | the name is the sanitised base, joined to the unsanitised page number by `_` before it (prefix) or after it (suffix) exactly when the strategy numbers |
| FileNames.SanitizeAroundNumber | src/services/pdfService.ts:82-88 | sanitising a clean number joined to a base by `_` rewrites only the base |
| FileNames.NumberReadsBack | src/services/pdfService.ts:46-86 | with numbering on and a non-negative sum, the name ends (suffix) or starts (prefix) with `_` and a digit block of width `max(padding, digits)` that reads back as `startNumber + index` |
| FileNames.PaddedIntInjective | src/services/pdfService.ts:46 | zero-padding `toString` keeps different integers apart, negative ones included |
| FileNames.PageNumberInjective | src/services/pdfService.ts:46 | different page indexes get different page numbers, whatever the sign of `startNumber + index` |
| FileNames.PageNumberNoUnderscore | src/services/pdfService.ts:46 | the page number holds no `_`, only digits and possibly a minus sign |
| FileNames.SplitAtFirstUnderscore | src/services/pdfService.ts:82 | two strings without `_`, each followed by `_` and any text, can only give the same string if they are equal |
| FileNames.SplitAtLastUnderscore | src/services/pdfService.ts:84 | the same for strings without `_` that follow the last `_` |
| FileNames.NumberedNamesDistinct | src/services/pdfService.ts:46-88 | with numbering on, two different page indexes never get the same name, whatever the bases and whatever the sign of the numbers |
| FileNames.DefaultStrategy | src/services/pdfService.ts:73-86 | `default` always numbers the extension-less source name on the configured side, then sanitises |
| FileNames.CustomStrategy | src/services/pdfService.ts:69-86 | `custom` always numbers `customBase`, or the extension-less source name when `customBase` is empty |
| FileNames.CsvStrategy | src/services/pdfService.ts:52-59 | `csv` uses the trimmed cell when the column is named and row `index` holds a non-empty cell under it, else `Page_<index+1>`; only `addNumberToCsv` decides numbering |
| FileNames.ManualStrategy | src/services/pdfService.ts:60-68 | `manual` uses the trimmed `index`-th non-blank line, which is never empty, else `Page_<index+1>`; only `addNumberToManual` decides numbering |
| FileNames.NameIgnoresOtherFields | src/services/pdfService.ts:51-77 | the name depends only on the strategy, the numbering fields and the fields of the chosen strategy |
| FileNames.ChoiceIgnoresOtherFields | src/services/pdfService.ts:51-77 | the base and the numbering flag depend only on the chosen strategy's own fields |
| JsText.Decimal | src/services/pdfService.ts:46 | `toString` of a natural number is a non-empty digit string without a leading zero unless it is `"0"` |
| JsText.DecimalRoundTrip | src/services/pdfService.ts:46 | the numeral reads back as the number it was printed from |
| JsText.DecimalInjective | src/services/pdfService.ts:24 | different numbers print differently |
| JsText.IntToString | src/services/pdfService.ts:46 | `toString` of an integer is a digit string, preceded by `-` when the integer is negative |
| JsText.IntToStringReadsBack | src/services/pdfService.ts:46 | the digits of `toString` read back as the magnitude |
| JsText.PadStart | src/services/pdfService.ts:46 | `padStart` gives length `max(width, length of s)`, ends with `s` unchanged and is filled in front |
| JsText.PaddedNumeral | src/services/pdfService.ts:46 | padding a numeral with zeros keeps it a numeral of the same value |
| JsText.LeadingZerosKeepValue | src/services/pdfService.ts:46 | leading zeros do not change the value of a numeral |
| JsText.TrimStart | src/services/pdfService.ts:54 | the result is a suffix of the input, what was cut is whitespace, and the result does not start with whitespace |
| JsText.TrimEnd | src/services/pdfService.ts:54 | the result is a prefix of the input, what was cut is whitespace, and the result does not end with whitespace |
| JsText.Trim | src/services/pdfService.ts:54 | `trim` is `trimStart` followed by `trimEnd` |
| JsText.TrimIsSlice | src/services/pdfService.ts:54 | the input is the trimmed text with whitespace before and after it |
| JsText.TrimEnds | src/services/pdfService.ts:54 | trimmed text neither starts nor ends with whitespace |
| JsText.TrimEmptyIffBlank | src/services/pdfService.ts:61 | `l.trim().length > 0` holds exactly when the line has a non-whitespace character |
| JsText.Split | src/services/pdfService.ts:61 | `split` gives at least one piece and no piece contains the separator |
| JsText.SplitJoin | src/services/pdfService.ts:61 | joining the pieces with the separator gives the string back |
| JsText.SplitUnique | src/services/pdfService.ts:61 | `split` is the only separator-free decomposition that joins back to the string |
| JsText.SplitOfSeparatorFree | src/services/pdfService.ts:61 | a string without the separator splits into itself alone |
| NamingExamples.CleanSourceExamples | src/services/pdfService.ts:45 | `Report.pdf` becomes `Report` and `a.b.c` becomes `a.b`; `noext` and `x.` are unchanged |
| NamingExamples.PaddingExample | src/services/pdfService.ts:46 | start 1, padding 3, page 0 gives `001` |
| NamingExamples.ManualLinesExample | src/services/pdfService.ts:61 | `"Alpha\n\nBeta"` gives the lines `Alpha` and `Beta` |
| NamingExamples.ReportExample | src/services/pdfService.ts:39-89 | page index 4 of `Report.pdf` with the default strategy, start 1, padding 2 and suffix is `Report_05` |
| RollingLogs.StepKeepsWindow | src/services/pdfService.ts:98-101 | one `addLog` step on the last ten messages gives the last ten messages after the new one |
| RollingLogs.Step | src/services/pdfService.ts:98-100 | one `addLog` on the list value: the new message is last, and a list within capacity stays within capacity |
| RollingLogs.Steps | src/services/pdfService.ts:97-101 | the log after a sequence of `addLog` calls from empty is within capacity and ends with the last message |
| RollingLogs.StepsIsWindow | src/services/pdfService.ts:97-101 | after any sequence of `addLog` calls the log is the last `min(n, 10)` messages in the order they were logged |
| RollingLogs.WindowEvictsOldest | src/services/pdfService.ts:100 | once the log is full, each new line evicts exactly the oldest one |
| RollingLogs.Window | src/services/pdfService.ts:97-101 | the log holds `min(n, 10)` lines |
| RollingLogs.RollingLog.constructor | src/services/pdfService.ts:97 | the log starts empty |
| RollingLogs.RollingLog.Add | src/services/pdfService.ts:98-101 | `addLog` appends the message and drops the oldest line past ten, so it keeps the log equal to the last ten messages ever logged |
| CsvReader.MaxWidth | src/services/pdfService.ts:17 | the width bounds every row and is reached by some row; no rows give width 0 |
| CsvReader.ColumnIds | src/services/pdfService.ts:18 | one identifier per position, the `i`-th being the numeral of `i` |
| CsvReader.ColumnIdsDistinct | src/services/pdfService.ts:18 | no two columns share an identifier |
| CsvReader.AssignedHoldsCells | src/services/pdfService.ts:23-25 | after the first `n` cells are assigned, the record's keys are the positions `0 .. n-1` and each holds its own cell: no cell overwrites another |
| CsvReader.RowToRecord | src/services/pdfService.ts:22-26 | the `forEach` builds the record that holds every cell of the row under its position and nothing else |
| CsvReader.Records | src/services/pdfService.ts:21-27 | one record per row |
| CsvReader.RecordsHoldRows | src/services/pdfService.ts:21-27 | each record holds every cell of its row under its position and nothing else |
| CsvReader.ParseHeaderless | src/services/pdfService.ts:13-27 | the columns are the positions up to the widest row and the data is the record of every row, in order |
| CsvReader.RecordsMatchColumns | src/services/pdfService.ts:17-27 | every key of every record is a column, and every column is a key of some record |
| CsvReader.HeaderlessColumnPicksCell | src/services/pdfService.ts:53-54 | with header-less data, naming page `index` from column `"c"` finds a cell exactly when row `index` exists, is long enough and is non-empty at `c`, and that cell is `rows[index][c]` |
| Splitter.EntryNames | src/services/pdfService.ts:118-127 | the `i`-th entry name is the generated name of page `i` with `.pdf` |
| Splitter.ErrorMessage | src/services/pdfService.ts:160 | `error.message` for an `Error`, otherwise `An unknown error occurred` |
| Splitter.ArchiveOf | src/services/pdfService.ts:127 | the archive after `zip.file` put page `i` under `names[i]` for each page in turn |
| Splitter.History | src/services/pdfService.ts:104-120 | every line logged once the pages named `names` are extracted; one line more than pages |
| Splitter.HistoryLines | src/services/pdfService.ts:104-120 | the logged lines are the loading line, then one `Extracted: <name>.pdf` line per page in page order |
| Splitter.Progress | src/services/pdfService.ts:110-135 | the start event and one event per page done, each with the log as it then stands |
| Splitter.TryBlock | src/services/pdfService.ts:103-158 | the events, the logged lines and the outcome of the `try` block for a file, its CSV rows, the configuration and the library fault |
| Splitter.DocumentAttempt | src/services/pdfService.ts:110-158 | the `try` block after loading: stop at a failing page, fail after the archiving event on an archive fault, or finish with the archive of all pages |
| Splitter.ErrorStatus | src/services/pdfService.ts:161-168 | the `catch` block's event: total and current 0, not complete, the message, and the log plus `ERROR: <message>` |
| Splitter.Reported | src/services/pdfService.ts:103-169 | what `onProgress` receives: the `try` block's events, then the error event when it threw |
| Splitter.SplitEvents | src/services/pdfService.ts:91-171 | everything `onProgress` receives during one `splitPdf` call |
| Splitter.TryPipeline | src/services/pdfService.ts:103-158 | the `try` block emits the events, logs the lines and ends with the outcome of `TryBlock`, keeping the log within its window |
| Splitter.ExtractPages | src/services/pdfService.ts:110-136 | the start event and page loop: it stops exactly when a page fault lies within the document, and gives the events, log and archive of the pages done |
| Splitter.ExtractPage | src/services/pdfService.ts:119-135 | one turn of the loop: it logs the page's `Extracted` line, stops exactly on that page's fault, and otherwise adds the page to the archive and reports it |
| Splitter.FinishArchive | src/services/pdfService.ts:138-158 | after the loop it logs and reports the archiving, then either fails on an archive fault or logs and reports completion and returns the archive of all pages |
| Splitter.RunStep | src/services/pdfService.ts:118-136 | one page adds its `Extracted` line, its progress event and its archive entry |
| Splitter.SplitPdf | src/services/pdfService.ts:91-171 | the events are those of the `try` block plus the error event on failure; the call succeeds exactly when the document loads and no page or archive call throws |
| Splitter.ProgressShape | src/services/pdfService.ts:110-136 | the start and page events count `current` up from 0 by one with `total = N`; none is complete or an error; every log is within ten lines |
| Splitter.ProgressLog | src/services/pdfService.ts:115-134 | each page event's log is the last ten lines logged up to that page's `Extracted` line |
| Splitter.SuccessProtocol | src/services/pdfService.ts:110-158 | a run that gets through emits `N + 3` events: `current = 0`, then `1 .. N` strictly increasing, then archiving and completion at `current = total = N`; only the last event is complete, none is an error, and the archive of all pages is returned |
| Splitter.FailureProtocol | src/services/pdfService.ts:159-169 | a throwing library call yields exactly one extra, last event with `total = current = 0`, not complete, carrying the message, whose log ends in `ERROR: <message>` and can hold eleven lines; earlier events are neither errors nor complete; the call fails |
| Splitter.UnreadableProtocol | src/services/pdfService.ts:104-169 | a document that cannot be loaded yields a single error event whose log is the loading line and the error line |
| Splitter.LoadedRun | src/services/pdfService.ts:106-119 | a loaded document runs exactly its pages, named by the naming policy |
| Splitter.ArchiveKeys | src/services/pdfService.ts:127 | the archive's keys are exactly the names inserted |
| Splitter.ArchiveLastWriteWins | src/services/pdfService.ts:127 | under each name the archive holds the last page given that name |
| Splitter.ArchiveSizeOfDistinct | src/services/pdfService.ts:127 | distinct names give one entry per page |
| Splitter.ArchiveSizeAtMost | src/services/pdfService.ts:127 | the archive never has more entries than pages |
| Splitter.ArchiveShrinksOnDuplicate | src/services/pdfService.ts:127 | two pages with the same name leave fewer entries than pages |
| Splitter.ArchiveSizeExact | src/services/pdfService.ts:127 | the archive has one entry per page if and only if no two pages share a name |
| Splitter.EntryNamesDistinct | src/services/pdfService.ts:119-127 | with numbering on, no two pages share an entry name |
| Splitter.ArchiveOfRun | src/services/pdfService.ts:118-127 | the archive's key set is `generateFileName(i, …) + ".pdf"` for `0 <= i < N`, with exactly `N` entries when names are numbered |

## Left out

- pdf-lib and pdfjs: loading, copying and saving pages are not modelled. The document is a page count or a load failure, and a page is an abstract value.
- JSZip compression and the blob it generates are not modelled. The archive is a map from entry name to page, and the returned value is that map.
- PapaParse tokenising, `skipEmptyLines` and the `header: true` path of `parseCsv` are not modelled. The header-less branch takes the tokenizer's rows as input, and a parse error (the Promise's `reject`) is not modelled.
- `async`, `await` and the Promise are not modelled. `splitPdf` is a sequential method, and a rejected call is a `Failure` result.
- Library calls that throw after loading are an input (`Fault`) rather than derived from the document. A fault stops the run at the first failing call, and the rest follows the code.
- The React components, the percentage bar and the download through object URLs are presentation and are not part of this model.
- CsvReader.MaxWidth: `Math.max` over no rows gives `-Infinity`, which `Array.from` treats as length 0. The model gives width 0 directly. The `RangeError` that spreading a huge number of rows into `Math.max` can raise is not modelled.
- CsvReader.ParseHeaderless: the code computes the columns before the rows. The model computes them after, which changes nothing because neither reads the other.
- CsvReader.RowToRecord: cells are strings. Papa's untyped `any` values are not modelled.
- FileNames.PageNumber: `startNumber + index` is an exact integer sum. JavaScript adds the two as doubles, and a sum whose magnitude exceeds 2^53 is rounded. With a start number of 9007199254740992, for example, pages 0 and 1 both get the number 9007199254740992. This rounding is not modelled.
- JsText.IntToString: numbers of `1e21` or more, which `toString` prints in exponent form, are not modelled, and neither are fractions.
- FileNames.HasCsvCell: a row is a map of its own keys. Names that a plain JavaScript object inherits from its prototype, such as `constructor`, are not modelled. Reading one would find a function instead of a cell.
- JsText.Trim: strings are sequences of code points. Surrogate pairs of UTF-16 are not treated separately, and no character outside the whitespace set needs it.
- FileNames.NumberedNamesDistinct: holds for JavaScript only while `startNumber + index` stays between -2^53 and 2^53. Beyond that the double sum rounds, two pages can get the same number and their names collide; the model's exact sum does not show this.
- Splitter.EntryNamesDistinct: the same bound of 2^53 on `startNumber + index` applies.
- Splitter.ArchiveOfRun: its count of exactly `N` entries holds in JavaScript only while `startNumber` and `startNumber + N - 1` stay between -2^53 and 2^53, for the same reason.
- FileNames.NumberedNamesDistinct: stated for numbered names only. Unnumbered names (csv or manual with numbering off) can collide, and `ArchiveSizeExact` describes what the archive then holds.
