# npm-audit-handler: report shaping, input normalisation and exit decision

npm-audit-handler wraps `npm audit`. It reads command-line options and a
`.nsprc` exception file. It runs the audit, reconciles the findings with the
exceptions, prints the result as a table or as JSON, and exits with a
status. This project models the three pieces of that tool that surround the
reconciliation, and proves what they promise.

- **Report shaping** (`src/utils/print.ts`, module `Print`):
  - The width rule for the wrapped Title and Paths columns.
  - How each cell is measured. The model follows every step: `JSON.stringify`, the two colour-code regular expressions, quote removal, and the UTF-16 `length`.
  - The header row for a requested column subset.
  - The conversion of row tuples into keyed row objects.
  - The assembly of the machine-readable document.
- **Input normalisation** (`src/handlers/handleInput.ts`, module `Input`):
  - The `npm audit` command line, including the production-only flag chosen by npm version.
  - The audit level: the option, then the environment, then `info`.
  - The comma-separated exclude, module-ignore and include-columns lists.
  - The single callback call, with its arguments in order.
- **End of run** (`src/handlers/handleFinish.ts`, module `Finish`):
  - The exit status.
  - The ordered outputs in table mode and in JSON mode.
  - The early stop on a failed result.

Supporting modules:

- `Base`: an `Option` type, with lodash `get` defaulting and `??`, plus `Math.min`.
- `Text`: JavaScript `split`, `join`, `trim` and `filter(Boolean)` on strings, and decimal rendering.
- `Types`: the header and key unions, and the processed-result and JSON-document records.
- `Runtime`: a `Process` class. It records console output, the hand-over of unused exceptions and the `process.exit` status. A process that has exited accepts no further output.

`handleFinish` is a method that takes that `Process` as a parameter. It is
proved to append exactly `FinishOutputs(...)` and to set the status to
`FinishExitCode(...)`. Row
conversion is a loop that fills a map. It is proved equal to the fold
`RowRecord`.

Two behaviours of the code that are easy to misread:

- **Audit level.** The level is not validated here. A level string that is present and non-empty is passed on unchanged, even if it names no severity. Only a missing or empty value becomes `info`. An option given as the empty string does not fall back to the environment variable: lodash `get` only uses its default when the property is missing.
- **Embedded double quotes.** An embedded `"` still counts one unit in a cell's measured length. `JSON.stringify` writes it as `\"`, and only the quote is removed, so the backslash remains. Only the two surrounding quotes go uncounted. A backslash counts two units. Backspace, tab, line feed, form feed and carriage return count two units (`\b`, `\t`, `\n`, `\f`, `\r`), and any other control character counts six, as its `\uXXXX` escape. A backslash or escape character that starts a colour-code match counts less, because the match removes part of its escape. `Print.ColourCodesNotCounted` states the exact measure for text without backslashes or control characters.

## Model

| member | source | states |
|---|---|---|
| Print.KeysFollowHeaders | src/utils/print.ts:13-36 | The row-object key lists are the column lists mapped through the header-to-key tables, position by position. |
| Print.MissingCellCountsZero | src/utils/print.ts:51 | A row with no cell at the column index measures 0, because the missing cell defaults to `''`. |
| Print.ColourCodesNotCounted | src/utils/print.ts:51-57 | Take a cell made of visible text (no control characters, no backslash) and colour codes `ESC [ d m` or `ESC [ dd m`. Its measured length is the UTF-16 length of the visible text alone: colour codes and the surrounding quotes are not counted. |
| Print.PlainCellLength | src/utils/print.ts:51-57 | A cell of plain characters measures exactly its UTF-16 length. |
| Print.ReplaceCodes | src/utils/print.ts:53-54 | A global colour-code replacement never lengthens the text. |
| Print.CodeMatchShape | src/utils/print.ts:53-54 | A match found at the start of the text is the prefix, one or two digits and `m`. When the text starts with such a code, a match is found, and two digits win over one. |
| Print.ColourCodeRemoved | src/utils/print.ts:53-54 | For either pattern's prefix, a complete colour code at the start of the text is removed, and the rest is replaced as if the code were not there. |
| Print.ContentWidth | src/utils/print.ts:49-61 | The fold's running maximum is at least `minWidth`. No cell measures more. It equals `minWidth` or the measure of some cell. |
| Print.ColumnWidth | src/utils/print.ts:47-64 | The width is at most `maxWidth` and at least `min(minWidth, maxWidth)`. For an empty table it is exactly `min(minWidth, maxWidth)`. Every cell fits, unless the width is capped at `maxWidth`. The width is `maxWidth`, `minWidth`, or some cell's measure. It is `maxWidth` only when `minWidth` or some cell reaches `maxWidth`. |
| Print.FilterHeadersKeeps | src/utils/print.ts:92 | The filter keeps exactly the headers whose name is requested, and keeps them in canonical order. |
| Print.ReportHeaders | src/utils/print.ts:92 | An empty request gives the seven canonical headers in order. A non-empty request gives exactly the canonical headers whose name it contains, in strictly increasing canonical position, so without duplicates. Unknown names are ignored. |
| Print.RequestOrderIgnored | src/utils/print.ts:92 | The request `['Severity', 'ID']` gives the headers `ID`, `Severity`. |
| Print.RowRecordKeys | src/utils/print.ts:140-144 | A row object's keys are exactly the key names at the row's indices. An index past the key list gives the key `undefined`. |
| Print.RowRecordAt | src/utils/print.ts:140-144 | Under each key, a row object holds the cell at the last index that maps to that key. |
| Print.DistinctKeysRecord | src/utils/print.ts:140-144 | With distinct key names covering the row, the key at index `i` maps to the cell at index `i`. |
| Print.ConvertRow | src/utils/print.ts:140-144 | The in-place loop over a row's cells builds exactly the fold `RowRecord`. |
| Print.ConvertReportTuplesToObjects | src/utils/print.ts:138-146 | One object per row, in row order, each the row's `RowRecord`. |
| Print.JsonOutputFields | src/utils/print.ts:120-127 | The document's `failed` is true only when the result's `failed` is true, so an absent flag gives false. Both ID lists are the result's lists with the empty IDs removed, order kept and multiplicities kept. There is one object per report row. The unused exception modules are not included. |
| Print.JsonVulnerabilityRecord | src/utils/print.ts:124 | In a security row of at most seven cells, cell `j` of row `i` appears under the `j`-th security key. |
| Print.JsonExceptionRecord | src/utils/print.ts:125 | In an exception row of at most four cells, cell `j` of row `i` appears under the `j`-th exception key. |
| Print.PrintSecurityReport | src/utils/print.ts:72-95 | Emits one table with the headers for the request, the rows as given, and the Title and Paths widths from the width rule. |
| Print.PrintJsonOutput | src/utils/print.ts:120-130 | Emits exactly the document `JsonOutputOf` describes, built with the conversion methods. |
| Text.Split | src/handlers/handleInput.ts:53-54 | `split(',')` yields at least one piece, and no piece contains the separator. |
| Text.JoinSplit | src/handlers/handleInput.ts:59 | Joining the pieces of a split with the separator gives back the original string. |
| Text.SplitJoin | src/handlers/handleInput.ts:53-54 | Splitting a join of separator-free pieces gives back the pieces. |
| Text.Trim | src/handlers/handleInput.ts:55 | `trim()` returns a string with no leading or trailing space. |
| Text.TrimIsMiddle | src/handlers/handleInput.ts:55 | `trim()` removes a run of whitespace from each end of the string, and nothing else: the result is the slice between two positions, with only whitespace before the first and after the second. |
| Text.TrimTrimmed | src/handlers/handleInput.ts:55 | Trimming an already trimmed string changes nothing. |
| Text.NonEmptyFilters | src/handlers/handleInput.ts:56 | `filter(Boolean)` keeps exactly the non-empty strings, each as often as before, in their order. |
| Text.NonEmptyKeepsAll | src/handlers/handleInput.ts:56 | A list without empty strings passes the filter unchanged. |
| Text.NatToString | src/handlers/handleFinish.ts:50 | A count renders as decimal digits without a leading zero and denotes the count. |
| Input.ProductionOnlyOption | src/handlers/handleInput.ts:23-30 | The flag is `--production` exactly when the version is at most 8.13.2 in lexicographic order, and `--omit=dev` otherwise. |
| Input.ProductionFlagDownwardClosed | src/handlers/handleInput.ts:25 | A version older than one that gets `--production` also gets `--production`. |
| Input.AuditCommand | src/handlers/handleInput.ts:38-45 | The command starts with `npm audit`. If `production` is set, one space and the production flag follow. If `registry` is non-empty, one space and `--registry=<value>` follow, after the production flag. |
| Input.JoinPresent | src/handlers/handleInput.ts:44-45 | Dropping empty entries and joining puts exactly one glue before each later entry that is present. |
| Input.BareAuditCommand | src/handlers/handleInput.ts:38-45 | With neither `production` nor `registry`, the command is exactly `npm audit`. |
| Input.AuditLevel | src/handlers/handleInput.ts:48-49 | The level is never empty. A non-empty `level` option wins. An empty `level` option gives `info`. A missing option takes a non-empty environment value, or else `info`. |
| Input.ParseCommaList | src/handlers/handleInput.ts:53-56 | Every entry is non-empty, trimmed and comma-free. The entries are exactly the non-empty strings among the trimmed comma pieces of the option, each as often as among the pieces, in their order. |
| Input.MissingListIsEmpty | src/handlers/handleInput.ts:53 | A missing list option parses to the empty list. |
| Input.ParseJoinedList | src/handlers/handleInput.ts:53-56 | Join clean entries with commas and parse the result: you get the entries back. |
| Input.ModuleIgnoreList | src/handlers/handleInput.ts:59 | The module-ignore list is split only. Joining it with commas gives back the option, and a missing option gives `['']`. |
| Input.HandleInput | src/handlers/handleInput.ts:36-66 | The callback receives, in its parameter order: the command, the level, the excepted IDs, the module-ignore list, the column list, the JSON flag (default false) and the exception report. The exception processing sees the parsed exclude list and the JSON flag. |
| Finish.FinishExitCode | src/handlers/handleFinish.ts:28-62 | The status is 0 or 1. It is 1 exactly when the result failed or there are unhandled IDs. |
| Finish.HandleFinish | src/handlers/handleFinish.ts:15-63 | The run emits exactly `FinishOutputs` after what was already emitted, and exits with `FinishExitCode`. |
| Finish.PrintReport | src/handlers/handleFinish.ts:36-45 | JSON mode prints the document. Table mode prints the table when there are rows, then hands on the unused exceptions. |
| Finish.PrintVerdict | src/handlers/handleFinish.ts:48-62 | Table mode prints the count message or the all-good line. JSON mode prints nothing here. Either way the run exits with `FinishExitCode`. |
| Finish.FailureStopsEverything | src/handlers/handleFinish.ts:28-33 | A failed result prints one error line and nothing else, and exits 1. |
| Finish.JsonModeOnlyDocument | src/handlers/handleFinish.ts:36-61 | In JSON mode the document is the only output, and its `failed` is false. |
| Finish.TableOnlyWithRows | src/handlers/handleFinish.ts:39-41 | In table mode a table appears exactly when the report has rows, with the requested headers and the report's rows. |
| Finish.TableModeHandsOn | src/handlers/handleFinish.ts:43-44 | In table mode the unused exceptions are handed on just before the verdict line, and no document is printed. |
| Finish.TableModeVerdict | src/handlers/handleFinish.ts:48-62 | In table mode the run ends with the verdict line: the count message when there are unhandled IDs, otherwise the all-good line. It is an error line exactly when the status is 1. |
| Finish.VulnerabilityMessageParts | src/handlers/handleFinish.ts:50 | The message is a decimal count of the IDs, then the fixed text, then the IDs joined by `', '` in order. |
| Runtime.Process.Emit | src/handlers/handleFinish.ts:29 | A running process appends exactly one output and keeps running. |
| Runtime.Process.Exit | src/handlers/handleFinish.ts:31 | The status is set, and the outputs are unchanged. |

## Left out

- The `table` library's rendering and its configuration (`src/utils/print.ts:73-94`). A printed table is an output event holding its header row, its rows and the two computed widths.
- `printExceptionReport` (`src/utils/print.ts:102-112`): its caller is not among the modelled files, so it is not modelled.
- The JSON text that `JSON.stringify(jsonOutput, null, 2)` prints. The document is modelled as a record.
- `processAuditJson`, `getProcessedExceptions` and `handleUnusedExceptions`: `src/utils/vulnerability.ts` is not part of this model. The processed result is an input. The exception processing is a function parameter. The hand-over of unused exceptions is an output event.
- Inputs passed in as parameters:
  - the `.nsprc` file contents, captured by the exception-processing parameter;
  - `getNpmVersion()`, passed as a version;
  - `NPM_CONFIG_AUDIT_LEVEL`, passed as an optional string.
- `process.exit` as a real effect. It sets the exit status of `Process`, after which nothing more may be emitted.
- Input.ProductionOnlyOption: versions are numeric triples. semver's prerelease rule and its handling of unparseable version strings (both lead to `--omit=dev`) are not modelled.
- Finding IDs are modelled as strings. A numeric ID `0`, which `filter(Boolean)` would also drop, is not modelled.
- Options are modelled with the types the tool declares for them. Commander values of other types, such as a boolean given to a string option, are not modelled.
- Print.ColourCodesNotCounted: stated only for cells whose visible text has no backslash and no control character. Such characters are over-counted by the escape form `JSON.stringify` gives them; the functions model this, and no lemma states it.
- Lone UTF-16 surrogates: `string` holds Unicode scalar values.
