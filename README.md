# Log audit tool: record extraction engine in Dafny

This project models the record extraction engine of the log audit tool.
It covers three programs. Each reads a JSON manifest of log files. For
every file it scans the lines and turns them into CSV rows of keyword
fields, each stamped with the time of the last timestamp line read.

- `index.js`, the audit tool.
  - Keeps one fresh record object per segment between start lines.
  - Pushes that record once more after the loop.
  - With the `-timestamp` flag, also stores each hit's parsed time under
    `tag-epoch`.
- `logtool.ts`, the log tool.
  - Its legacy `AM` processor keeps one working `Map` that is never
    cleared. The first start line pushes nothing; each later start line
    pushes the live `Map`. Every line that is neither a start line nor a
    timestamp line pushes a snapshot of it.
  - Its `AM2` processor first groups the lines by transaction id. Each
    `TransactionId` line the scan takes is grouped with the line after
    it, which it consumes (see "Truncated transaction block" below). It
    then flattens the groups and runs the same loop over them.
- `logtool.js`, the compiled form of an earlier `logtool.ts`. It has the
  legacy processor only.

Modules (one file each):

| module | file | models |
|---|---|---|
| `Base` | base.dfy | `Option`, `Result` |
| `JsString` | js_string.dfy | the JavaScript string operations the engine uses: `includes`, `indexOf`, first-occurrence `replace`, `substring`, `trim`, `split` on one character |
| `Timestamp` | timestamp.dfy | `parseTimestamp` / `parseDateTimeString` |
| `Fields` | fields.dfy | the manifest entry, field values, line classification, the keyword value derived from the timestamp line |
| `AuditTool` | audit_tool.dfy | index.js `processFile` |
| `LegacyAM` | legacy_am.dfy | the legacy `processFile` of logtool.ts and `AMLogProcessor.processFile` of logtool.js |
| `Transactions` | transactions.dfy | `sortRecordsByTransactionId` and the flattening step |
| `GroupedAM` | grouped_am.dfy | the `AM2` `processFile` |
| `Dispatch` | dispatch.dfy | the manifest loops and the `scriptType` switch |

## How the model is built

Each JavaScript loop is a `method` with the same variables and branches.
Each method is proved equal to a specification function:

- `Run` is a fold of a one-line `Step` over the lines.
- `GroupFrom` is the grouping scan.
- `RunFrom` is the manifest loop.

The loop invariants take one of two shapes:

- Line, keyword, grouping and manifest loops: "the specification from
  the current state over the remaining input equals the specification
  over the whole input".
- Header and flattening loops (`AuditTool.BuildHeaders`,
  `LegacyAM.BuildHeaders`, `Transactions.FlattenBlocks`): "the result so
  far is the specification of the prefix read so far".

The properties are proved as lemmas about these functions.

The specification functions that define the source functions are:

- `Timestamp.Parse`: `parseTimestamp`, index.js:44-59.
- `Fields.KeywordValue`: the keyword value, index.js:118-119.
- `AuditTool.Step` and `AuditTool.Run`: the line loop of index.js:95-126.
- `LegacyAM.Step` and `LegacyAM.Run`: the line loop of logtool.ts:122-160.
- `Transactions.GroupFrom`: `sortRecordsByTransactionId`, logtool.ts:188-215.
- `GroupedAM.RunLines`: the `AM2` line loop, logtool.ts:251-281.
- `Dispatch.RunFrom`: the manifest `forEach`, logtool.ts:63-77.
- `Dispatch.Handle`: the `scriptType` switch, logtool.js:64-72.

An exception the source would raise becomes a `Failure`, and it ends the
file. An uncaught exception inside the manifest's `forEach` also ends the
run. There are three kinds:

- a `TypeError` from indexing past the timestamp fields;
- `line.includes` on an `undefined` line;
- `.replace` on a missing sixth token.

A record is a `map<string, Value>`. A value is either extracted text or
`EpochOf(iso)`, which stands for `Date.parse(iso)` of the canonical string.

### Behaviour of the code worth knowing

The model follows the code.

- **Time format.** `parseTimestamp` needs four colon-separated time fields
  (`HH:mm:ss:SSS`). A time written `HH:mm:ss.SSS` has only three and
  throws. See `Timestamp.DotMillisecondsRefused`.
- **Blank before `UTC`.** The value of a timestamp line keeps the blank
  before `UTC`, because `trim` runs before the cut. The blank is harmless:
  the parser reads only the first two space-separated tokens. See
  `Fields.KeywordValueOfTimestampLine` and `Timestamp.ParseFormatted`
  (its `tail`). `Timestamp.TrailingBlankRefused` throws only because of
  the `ss.SSS` time in it.
- **Record count.** The audit tool emits max(1, N) records for N start
  lines, not N + 1. See `AuditTool.RecordCount`.
- **Bad timestamps.** A timestamp that does not parse is not recorded per
  field. It throws and stops the file, and with it the run. See
  `AuditTool.ExtractFailsIff` and `LegacyAM.ExtractFailsIff`.
- **Truncated transaction block.** The grouping scan takes a marker line,
  and the line after it as its successor. In a run of consecutive marker
  lines it therefore takes every other one, starting with the first. When
  it takes the last line of the file, the successor is `undefined`. That
  is not a truncated block: it makes the `AM2` loop throw. See
  `Transactions.PairsAtTaken` and `GroupedAM.GroupedUndefinedIff`.

## Model

| member | source | states |
|---|---|---|
| Timestamp.ParseFailures | index.js:44-59 | the parser fails on the missing time token exactly when the input has no space, and succeeds exactly when the token after the first space has at least three colons |
| Timestamp.ParseFormatted | index.js:44-59 | a `MM/DD/YYYY HH:mm:ss:SSS` string becomes `YYYY-MM-DDTHH:mm:ss.SSSZ` with every field carried over unchanged. Seconds and milliseconds may each carry a `.` suffix, which is cut off. The string may go on after a space |
| Timestamp.ThreeFieldsRefused | index.js:52-55 | any time token with only three colon fields, followed by nothing or by a blank and anything, throws at the fourth |
| Timestamp.DotMillisecondsRefused | index.js:52-55 | the example `10/10/2023 01:02:03.345`, a time with a dot before the milliseconds, has three colon fields and throws at the fourth (an instance of `ThreeFieldsRefused`) |
| Timestamp.TrailingBlankRefused | logtool.ts:93-94 | the value cut from a timestamp line with an `ss.SSS` time throws at the fourth colon field; its trailing blank plays no part |
| Timestamp.EmptyRefused | logtool.ts:172-186 | the empty value a hit gets before any timestamp line throws on the missing time token |
| Timestamp.BeforeDot | logtool.js:85-86 | the prefix that ends at the first dot, or the whole text when it has no dot |
| Timestamp.BeforeDotOf | index.js:54-55 | a dot-free field, followed by nothing or by a dot and anything, is kept whole |
| Fields.KeywordValueMeaning | index.js:118-119 | the value is the timestamp line with its first `filename:` removed, trimmed, and cut before its first `UTC`; it holds no `UTC`, and it is empty when there is no `UTC` |
| Fields.KeywordValueWithoutTimestamp | index.js:88 | before any timestamp line the value is empty |
| Fields.KeywordValueOfTimestampLine | logtool.ts:152-153 | for `filename:` + blanks + `v` + `UTC` + anything, the value is exactly `v`, including a blank before `UTC` |
| Fields.ShiftCrash | index.js:95-126 | line 0 crashes from the starting timestamp line exactly when the first line crashes. Line `i + 1` crashes exactly when line `i` of the rest crashes, read from the timestamp line after the first line. So when the first line does not crash, a crash exists on both sides or on neither |
| JsString.IndexOf | index.js:119 | the first occurrence, or -1 when there is none |
| JsString.RemoveFirst | index.js:118 | cuts out the occurrence at the smallest index and keeps everything around it; the text is unchanged when there is none |
| JsString.Substring | index.js:119 | clamps its bounds, so `substring(0, -1)` is empty |
| JsString.Trim | index.js:118 | no whitespace is left at either end |
| JsString.TrimInfix | logtool.ts:152 | the trimmed text is an infix of the input, with only whitespace around it |
| JsString.Split | index.js:45-46 | at least one piece, and no piece holds the separator |
| JsString.JoinSplit | logtool.ts:85-94 | joining the pieces gives back the input; there is one more piece than separators |
| JsString.SplitJoin | logtool.js:78-86 | splitting pieces that hold no separator gives them back |
| AuditTool.HeadersLayout | index.js:67-74 | `filename`/`Filename` first, then per keyword its tag, followed by `tag-epoch` only under the flag |
| AuditTool.BuildHeaders | index.js:67-74 | the header loop builds exactly that list |
| AuditTool.ProcessFile | index.js:61-134 | the header list, and the records or the exception, as the specification functions give them |
| AuditTool.MatchKeywords | index.js:115-124 | the inner keyword loop as written computes the keyword fold, or its exception under the flag |
| AuditTool.StepShape | index.js:98-125 | a start line sets `started`; a closing one pushes the record and starts a fresh one; a timestamp line only replaces the timestamp line; only a tested line runs the keywords |
| AuditTool.StepFails | index.js:116-122 | a line throws exactly when it is tested, some keyword hits, and the value does not parse |
| AuditTool.RunCounts | index.js:95-126 | one record pushed per closing start line; earlier records are kept |
| AuditTool.RecordCount | index.js:94-127 | max(1, N) records for N start lines |
| AuditTool.ApplyKeywordsTotal | index.js:116-125 | without the flag the keyword loop cannot throw |
| AuditTool.RunTotal | index.js:95-126 | without the flag the line loop cannot throw |
| AuditTool.NoFlagNeverFails | index.js:18-24 | without `-timestamp` every file is processed |
| AuditTool.RunTimestampLine | index.js:111-114 | the timestamp line in force is the last one read; start lines do not reset it |
| AuditTool.ApplyKeywordsFails | index.js:116-122 | under the flag the keyword loop throws exactly when some keyword hits and the value does not parse |
| AuditTool.RunFailsIff | index.js:95-126 | under the flag the loop throws exactly when some line crashes, read after the timestamp line in force |
| AuditTool.RunCons | index.js:95-126 | after a first line that goes through, the loop continues from that line's state and timestamp line |
| AuditTool.ExtractFailsIff | index.js:95-127 | a file fails exactly when some line crashes, counted from an empty timestamp line |
| AuditTool.ApplyKeywordsSnoc | index.js:116-125 | keywords are applied in declaration order |
| AuditTool.ApplyKeywordsKeys | index.js:116-125 | the keywords add exactly the fields of the keywords that hit, and leave every other field unchanged |
| AuditTool.ApplyKeywordsValues | index.js:120-123 | every hit stores the value under its tag and, under the flag, the parsed value under `tag-epoch` |
| AuditTool.ColumnsAreHeaders | index.js:67-74 | a field name can be written exactly when it is a header id |
| AuditTool.ColumnIsHeader | index.js:67-74 | a writable field name has a header |
| AuditTool.HeaderIsColumn | index.js:67-74 | every header id is a writable field name |
| AuditTool.StepInColumns | index.js:98-125 | one line keeps every record inside the header columns |
| AuditTool.RunInColumns | index.js:95-126 | the loop keeps every record inside the header columns |
| AuditTool.RecordsWithinHeaders | index.js:67-127 | every field of every emitted record has a CSV column |
| AuditTool.RunSeeded | index.js:89-104 | every record keeps `filename = nickname` |
| AuditTool.RecordsSeeded | index.js:89-104 | every emitted record holds `filename = nickname` when no keyword writes `filename` |
| AuditTool.RunRecordsFrame | index.js:95-126 | the records already pushed do not influence the rest of the loop |
| AuditTool.RunAfterClose | index.js:100-104 | after a closing start line the loop restarts from a fresh record, so no field carries over |
| AuditTool.RunSnoc | index.js:95-126 | the loop over one more line is one more step |
| AuditTool.HitStoresValue | index.js:116-123 | a hit stores, under its tag, the value derived from the last timestamp line |
| LegacyAM.HeadersLayout | logtool.ts:108-112 | per keyword, `searchString` then `searchString-epoch`; no `filename` column |
| LegacyAM.BuildHeaders | logtool.js:96-100 | the header loop builds exactly that list |
| LegacyAM.ScanLines | logtool.ts:122-160 | the loop as written computes the specification run, or its exception |
| LegacyAM.MatchKeywords | logtool.ts:150-157 | the inner keyword loop as written computes the keyword fold, or its exception |
| LegacyAM.ProcessFile | logtool.js:90-138 | the header list, and the rows or the exception |
| LegacyAM.StepShape | logtool.js:114-138 | a closing start line pushes the live `Map` and then sets `filename` on it; a tested line pushes a snapshot of the updated `Map` |
| LegacyAM.LiveCountAppend | logtool.ts:137 | live rows add up over concatenation |
| LegacyAM.RunCounts | logtool.ts:132-160 | one live row per closing start line and one snapshot per tested line; earlier rows are kept |
| LegacyAM.StepCounts | logtool.js:116-137 | one step pushes one row for a closing start line and one for a tested line |
| LegacyAM.RowCount | logtool.js:111-138 | max(0, N-1) + M rows for N start lines and M tested lines, max(0, N-1) of them live |
| LegacyAM.ApplyKeywordsFails | logtool.ts:150-157 | the keyword loop throws exactly when some keyword hits and the value does not parse |
| LegacyAM.StepFails | logtool.ts:135-159 | a line throws exactly when it is tested, some keyword hits, and the value does not parse |
| LegacyAM.RunCons | logtool.ts:132-160 | after a first line that goes through, the loop continues from that line's state |
| LegacyAM.RunFailsIff | logtool.ts:132-160 | the loop throws exactly when some line crashes, read after the timestamp line in force |
| LegacyAM.ExtractFailsIff | logtool.js:114-138 | a file fails exactly when some line crashes |
| LegacyAM.ApplyKeywordsSnoc | logtool.ts:150-157 | keywords are applied in declaration order |
| LegacyAM.ApplyKeywordsKeys | logtool.ts:150-157 | the keywords add exactly the `searchString` and `searchString-epoch` fields of the keywords that hit, and leave every other field unchanged |
| LegacyAM.ApplyKeywordsValues | logtool.js:129-135 | every hit stores the value under `searchString` and, always, its parse under `searchString-epoch` |
| LegacyAM.RunSnoc | logtool.ts:132-160 | the loop over one more line is one more step |
| LegacyAM.RunTimestampLine | logtool.ts:145-148 | the timestamp line in force is the last one read |
| LegacyAM.HitStoresBoth | logtool.ts:150-159 | a hit on the last line stores the value derived from the last timestamp line, and its epoch, in the working `Map` and in the snapshot pushed for that line |
| LegacyAM.StepAccumulates | logtool.ts:135-159 | one step never removes a field, and keeps the snapshots growing |
| LegacyAM.RunAccumulates | logtool.ts:127-160 | the working `Map` is never cleared: its fields only grow |
| LegacyAM.FieldsAccumulate | logtool.js:111-138 | each later snapshot holds every field of the earlier ones, and a live row holds every field of every row |
| LegacyAM.RunFilename | logtool.ts:136-139 | `filename` appears at the first closing start line, with the nickname, and stays |
| LegacyAM.FilenameAfterFirstClose | logtool.js:116-124 | the final `Map` has `filename` exactly when there are at least two start lines, and every live row shows the nickname |
| LegacyAM.LiveCountPositive | logtool.ts:137 | a live row is counted |
| Transactions.SortByTransactionId | logtool.ts:188-215 | the grouping loop as written, with its extra `i++`, computes the grouping scan or its exception |
| Transactions.FlattenBlocks | logtool.ts:246-249 | the flattening loop concatenates the blocks in key order |
| Transactions.MarkerIdOf | logtool.ts:195-196 | a line whose sixth single-space token is `TransactionId[id]` has that id |
| Transactions.SixthToken | logtool.ts:195 | the sixth token of five blank-free tokens and a blank-free token |
| Transactions.StripMarker | logtool.ts:196 | removing `TransactionId[` and then the first `]` gives back an id without `]` |
| Transactions.GroupPairs | logtool.ts:192-213 | grouping appends exactly the (marker, successor) pairs the scan takes, in scan order |
| Transactions.PairsSound | logtool.ts:194-200 | every taken pair is a marker line at or after the scan's start, with its id and the next line (`undefined` past the end) |
| Transactions.PairsOrdered | logtool.ts:192-200 | pairs are taken in increasing line order, at least two lines apart, because a marker consumes its successor |
| Transactions.PairsComplete | logtool.ts:192-200 | every marker line is taken, or is the successor of a taken one |
| Transactions.PairsTotal | logtool.ts:195-196 | when every marker line has six tokens, grouping cannot throw |
| Transactions.RunStart | logtool.ts:192-200 | the first line of the run of consecutive marker lines ending at a line: every line from it on is a marker, and the line before it is not |
| Transactions.ScanTakesFirst | logtool.ts:194-200 | the scan takes the line it starts at exactly when it is a marker, and then skips the successor |
| Transactions.ScanTakesSkip | logtool.ts:192-194 | past a line that is not a marker, the scan takes the same lines as a scan started after it |
| Transactions.ScanTakesResume | logtool.ts:199-200 | past a taken marker and its successor, the scan takes the same lines as a scan started two lines on |
| Transactions.PairsAtTaken | logtool.ts:192-200 | the scan takes a pair exactly at the marker lines at an even distance from where it entered their run of consecutive markers |
| Transactions.ShortTakenFails | logtool.ts:195-196 | a taken marker line with fewer than six tokens makes the scan throw |
| Transactions.FailsAtShort | logtool.ts:195-196 | a scan that throws does so at a taken marker line with fewer than six tokens |
| Transactions.PairsFailIff | logtool.ts:192-200 | the scan throws exactly when it takes a marker line with fewer than six tokens |
| Transactions.GroupFailsIff | logtool.ts:188-215 | grouping throws exactly then; this is the converse of `PairsTotal` for the lines the scan reaches |
| Transactions.RowsUndefined | logtool.ts:199-209 | the pairs' lines hold `undefined` exactly when some pair has no successor |
| Transactions.LastLineUndefined | logtool.ts:199-209 | a taken pair lacks a successor exactly when the scan takes the last line |
| Transactions.DedupFacts | logtool.ts:202-206 | the first-seen id list has each id once, and exactly the ids that occur |
| Transactions.InsertAllShape | logtool.ts:198-211 | the table holds the ids in first-seen order, each once, and each block holds exactly its pairs' lines in scan order |
| Transactions.AppendGroups | logtool.ts:202-211 | appending one pair keeps that shape |
| Transactions.FlattenGrouped | logtool.ts:246-249 | the flattened array is, for each id in first-seen order, its pairs' lines |
| Transactions.FlattenAppend | logtool.ts:207-211 | appending to a block adds exactly those lines to the flattened array |
| Transactions.FlattenPermutes | logtool.ts:246-249 | the flattened array is a permutation of the taken lines: two per taken marker |
| Transactions.GroupShape | logtool.ts:188-215 | the grouping of a file, with all of the above |
| GroupedAM.RunLift | logtool.ts:251-281 | over defined lines the `AM2` loop is the legacy loop |
| GroupedAM.UndefinedFails | logtool.ts:256 | an `undefined` entry makes the loop throw |
| GroupedAM.ExtractIsLegacy | logtool.ts:239-281 | a file that goes through is processed as the legacy processor processes its flattened array |
| GroupedAM.GroupedRowCount | logtool.ts:251-281 | max(0, N-1) + M rows, counted over the flattened array |
| GroupedAM.GroupedUndefinedIff | logtool.ts:199-209 | the flattened array holds `undefined` exactly when the scan takes the last line as a marker |
| GroupedAM.LastMarkerFails | logtool.ts:199-209 | a file whose last line the scan takes as a marker cannot go through: grouping throws, or the loop throws on `undefined` |
| GroupedAM.LastMarkerAlone | logtool.ts:194-200 | a marker on the last line, right after a line that is not a marker, is taken |
| GroupedAM.ScanLineArray | logtool.ts:251-281 | the loop as written computes the loop function, throwing on `undefined` |
| GroupedAM.ProcessFile | logtool.ts:217-287 | the header list, and the rows of the grouped file or the exception |
| Dispatch.RunReports | logtool.ts:63-77 | entries are handled in order, each by its processor; the run stops at the first exception, and without one every entry is handled |
| Dispatch.RunFromReports | logtool.js:61-73 | the same, from a partial run |
| Dispatch.ReportsUnique | logtool.ts:63-77 | that description fixes the report |
| Dispatch.UnsupportedSkipped | logtool.ts:72-75 | `IDM` or any other unknown type is skipped and does not stop the run |
| Dispatch.BuildsAgree | logtool.js:64-72 | the two builds treat every entry alike except `AM2`, which only the TypeScript build processes |
| Dispatch.AuditWithoutFlagCompletes | index.js:38-42 | without `-timestamp` the audit tool handles every manifest entry |
| Dispatch.RunManifest | logtool.ts:63-77 | the `forEach` as written produces that report |
| Dispatch.HandleEntry | logtool.js:64-72 | the `switch` sends each entry to its processor |

## Left out

- Command-line handling (`process.argv` checks, `process.exit`) is left out. The `-timestamp` flag is an input boolean; `Dispatch.TimestampFlag` is only its definition.
- File and directory I/O is left out: reading, `split('\n')`, `mkdirSync` and `path.resolve`. A file is given as its sequence of lines.
- `JSON.parse` of the manifest is left out. The manifest is a sequence of `Fields.FileSpec` values.
- The CSV writer is left out: `csv-writer`, its asynchronous promise, and how it renders a `Map` row. The model stops at the header list and the rows handed to `writeRecords`.
- The report keeps the outcomes of the entries handled before an exception: what was handed to `writeRecords`. The exception is thrown synchronously inside `forEach` and is not caught. Whether the pending asynchronous writes of those files reach the disk before the process ends is not modelled.
- `chalk` / `console.log` diagnostics are left out.
- The output directory name built from the current date is left out.
- `Date.parse` is not modelled. The epoch field holds `EpochOf(iso)`, where `iso` is the canonical string it would parse, so JavaScript date leniency is not modelled.
- The TypeScript/CommonJS interop helpers at the head of logtool.js are left out.
- The key insertion order of a record object or `Map` is left out. Records are maps, and the CSV column order comes from the header list.
- `Fields.FileSpec` is one shape for both manifest formats. `nickname` stands for `nickname` and `friendlyName`, and `start` for `start` and `startString`. A keyword's `pattern` is `string` or `searchString`, and its `tag` is `tag`. The log processors use `searchString` for both.
