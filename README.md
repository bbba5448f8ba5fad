# List distribution: a verified model

This project models the upload-and-distribute logic of the `ListDistribution` component in the list-agent-distributor web app.

An upload takes one chosen file and passes it through four steps:

- **The type gate (`validateFile`).** The file is accepted when its MIME type is one of three spreadsheet types, or when the lower-cased suffix of its name, from the last dot, is `.csv`, `.xlsx` or `.xls`.
- **The CSV reader (`parseCSV`).** It splits on newlines and drops blank lines. It then checks that the header mentions `firstname`, `phone` and `notes` somewhere, by substring, in any order and in any case. Every later line with at least three comma-separated cells becomes a record of its first three cells, trimmed and with double quotes removed.
- **The partitioner (`distributeItems`).** It hands each agent of the roster a slice of the records.
- **The history (`handleFileUpload`).** A successful upload prepends one entry with the file name, an id, the date, the record count and the shares. Every failure leaves the history unchanged.

The modules follow that structure:

| module | file | models |
|---|---|---|
| `Results` | results.dfy | `Option` and `Result` |
| `JsBuiltins` | js_builtins.dfy | the JavaScript string and array builtins the component relies on: `split`, `trim`, `toLowerCase`, `includes`, `lastIndexOf`, `slice`, `replace(/"/g, '')` |
| `FileValidator` | file_validator.dfy | `validateFile` |
| `RecordParser` | record_parser.dfy | `parseCSV` |
| `Partitioner` | partitioner.dfy | `distributeItems` |
| `DistributionSession` | distribution_session.dfy | `handleFileUpload`, and the `distributedLists` state as the class `ListDistribution` |

How the state-changing code is modelled:

- `parseCSV` pushes records in a loop. It is the method `RecordParser.ParseCsv`, proved equal to the function `RecordParser.ParseContent`. Its loop over the data lines is the method `RecordParser.ReadRows`, a `for` loop proved to return the records `RecordParser.Rows` gives.
- The component's history is a class field.
- `HandleFileUpload` is proved to return `ProcessUpload`'s outcome. Its contract also fixes the new history: the outcome prepended on success, the history unchanged on failure.

## How the shares are computed

The partitioner is modelled as the code writes it.

- With n records and k agents, let base = n / k and rem = n % k.
- Agent i's slice is `[i * base, i * base + base + (i < rem ? 1 : 0))`.
- The sizes are the balanced sizes, and they add up to n (`Partitioner.TotalIsItemCount`).
- The start index ignores the extra records given to earlier agents.
  - When rem == 0, the shares tile the list exactly (`Partitioner.EvenSplitIsPartition`).
  - When rem > 0 and n ≥ 2, agents 0 and 1 both get record `base` (`Partitioner.RemainderOverlaps`).
  - When rem > 0, no share reaches past `n - rem`, or past 1 when there are fewer records than agents. With two or more records, some records go to nobody (`Partitioner.RemainderLosesTail`).
- Example: seven records over three agents give `[r0 r1 r2]`, `[r2 r3]`, `[r4 r5]`; record r6 goes to nobody.
- Slices that tiled the list, contiguous and disjoint with no record skipped, would start agent i at the sum of the earlier sizes, i * base + min(i, rem). The code starts it at i * base, which agrees only when rem == 0. The model follows the code, and the lemmas above pin down the difference.

## Model

| member | source | states |
|---|---|---|
| JsBuiltins.Trim | src/components/ListDistribution.tsx:53 | the result is empty exactly when the string is all whitespace; otherwise neither end of the result is whitespace; it is never longer than the input (what it keeps: `TrimCutsEnds`) |
| JsBuiltins.TrimCutsEnds | src/components/ListDistribution.tsx:53 | the result is a contiguous piece of the input, and what is cut before and after it is all whitespace |
| JsBuiltins.TrimStart | src/components/ListDistribution.tsx:54 | the result is a suffix of the input; the dropped prefix is all whitespace; the result does not start with whitespace |
| JsBuiltins.TrimEnd | src/components/ListDistribution.tsx:54 | the result is a prefix of the input; the dropped suffix is all whitespace; the result does not end with whitespace |
| JsBuiltins.ToLower | src/components/ListDistribution.tsx:47 | no contract; see `ToLowerHasNoUpper`, `ToLowerIdempotent`, `ToLowerConcat`, `ToLowerSuffix`, `TrimToLower` |
| JsBuiltins.ToLowerHasNoUpper | src/components/ListDistribution.tsx:47 | a lower-cased string has no upper-case letter |
| JsBuiltins.ToLowerIdempotent | src/components/ListDistribution.tsx:54 | lower-casing twice is lower-casing once |
| JsBuiltins.ToLowerConcat | src/components/ListDistribution.tsx:47 | lower-casing distributes over concatenation |
| JsBuiltins.ToLowerSuffix | src/components/ListDistribution.tsx:47 | lower-casing commutes with taking a suffix |
| JsBuiltins.TrimToLower | src/components/ListDistribution.tsx:54 | trimming and lower-casing commute |
| JsBuiltins.Split | src/components/ListDistribution.tsx:53 | `split` always yields at least one piece |
| JsBuiltins.SplitLength | src/components/ListDistribution.tsx:69 | the number of pieces is the number of separators plus one |
| JsBuiltins.SplitPiecesFree | src/components/ListDistribution.tsx:53 | no piece contains the separator |
| JsBuiltins.JoinSplit | src/components/ListDistribution.tsx:53 | joining the pieces with the separator gives back the string |
| JsBuiltins.SplitJoin | src/components/ListDistribution.tsx:69 | splitting a join of separator-free pieces gives back the pieces |
| JsBuiltins.SplitConcat | src/components/ListDistribution.tsx:54 | splitting `a + sep + b` is splitting a, then splitting b |
| JsBuiltins.SplitTwo | src/components/ListDistribution.tsx:54 | two separator-free pieces joined by the separator split back into those two |
| JsBuiltins.SplitThree | src/components/ListDistribution.tsx:54 | three separator-free pieces joined by the separator split back into those three |
| JsBuiltins.SplitAllWhitespace | src/components/ListDistribution.tsx:53 | for a whitespace separator, every piece is blank exactly when the whole string is blank |
| JsBuiltins.SplitToLower | src/components/ListDistribution.tsx:54 | splitting at a caseless separator commutes with lower-casing |
| JsBuiltins.Map | src/components/ListDistribution.tsx:54 | `map` keeps the length and applies the function at every position |
| JsBuiltins.MapConcat | src/components/ListDistribution.tsx:54 | `map` distributes over concatenation |
| JsBuiltins.Includes | src/components/ListDistribution.tsx:59 | no contract; see `IncludesSelf`, `MissingCharNotIncluded`, `RecordParser.PhoneNumberIncludesPhone` |
| JsBuiltins.IncludesSelf | src/components/ListDistribution.tsx:59 | every string includes itself |
| JsBuiltins.MissingCharNotIncluded | src/components/ListDistribution.tsx:59 | a string that lacks some character of the needle does not include the needle |
| JsBuiltins.LastIndexOf | src/components/ListDistribution.tsx:47 | -1 exactly when the character is absent; otherwise the character is at that index and nowhere after it |
| JsBuiltins.RelativeIndex | src/components/ListDistribution.tsx:47 | a `slice` index lands in `[0, length]`: unchanged when already in range, counted from the end when negative, 0 below minus the length, and the length above it |
| JsBuiltins.SliceFrom | src/components/ListDistribution.tsx:47 | no contract; see `RelativeIndex`, `FileValidator.NoDotNoExtension`, `FileValidator.ExtensionIsSuffix` |
| JsBuiltins.Slice | src/components/ListDistribution.tsx:93 | with in-range bounds, `slice(start, end)` is the subsequence from start to end |
| JsBuiltins.RemoveAll | src/components/ListDistribution.tsx:69 | no occurrence of the character remains; the length drops by its number of occurrences; a string without it is unchanged (what it keeps: `RemoveAllChar`, `RemoveAllConcat`) |
| JsBuiltins.RemoveAllChar | src/components/ListDistribution.tsx:69 | a single character is removed when it is the one given and kept otherwise |
| JsBuiltins.RemoveAllConcat | src/components/ListDistribution.tsx:69 | removal works piece by piece, so every other character survives, in its original order |
| FileValidator.FileExtension | src/components/ListDistribution.tsx:47 | no contract; see `NoDotNoExtension`, `ExtensionIsSuffix` |
| FileValidator.ValidateFile | src/components/ListDistribution.tsx:39-50 | no contract; see `ValidateFileIff` |
| FileValidator.NoDotNoExtension | src/components/ListDistribution.tsx:47 | without a dot, `lastIndexOf` is -1, the slice keeps at most the last character, and no allowed extension can match |
| FileValidator.ExtensionIsSuffix | src/components/ListDistribution.tsx:47 | for a lower-case extension with a single leading dot, the computed extension equals it exactly when the name ends with it, ignoring case |
| FileValidator.ExtensionTestIff | src/components/ListDistribution.tsx:45-49 | the extension test holds exactly when the name ends in `.csv`, `.xlsx` or `.xls`, ignoring case |
| FileValidator.ValidateFileIff | src/components/ListDistribution.tsx:39-50 | a file is valid exactly when its MIME type is allowed or its name ends in an allowed extension, ignoring case; either alone suffices |
| FileValidator.NoDotNeedsMimeType | src/components/ListDistribution.tsx:47-49 | a name without a dot is accepted only on its MIME type |
| FileValidator.MislabeledCsvAccepted | src/components/ListDistribution.tsx:39-50 | `contacts.CSV` declared as `application/octet-stream` is accepted on its extension |
| RecordParser.NonBlank | src/components/ListDistribution.tsx:53 | `filter(line => line.trim())` keeps only non-blank lines, never more than it was given, and yields nothing exactly when every line is blank; a line is in the result exactly when it is among the input lines and not blank |
| RecordParser.NonBlankConcat | src/components/ListDistribution.tsx:53 | filtering two runs of lines is filtering each, in order, so the kept lines keep their order |
| RecordParser.NonBlankSingle | src/components/ListDistribution.tsx:53 | one line is kept exactly when it is not blank |
| RecordParser.Lines | src/components/ListDistribution.tsx:53 | no contract; see `NonBlank`, `NoLinesIff` |
| RecordParser.HeaderName | src/components/ListDistribution.tsx:54 | no contract; see `HeaderNameIs`, `CanonicalNames`, `HeaderCaseIrrelevant` |
| RecordParser.HeaderFields | src/components/ListDistribution.tsx:54 | no contract; see `HeaderFieldsConcat`, `HeaderCaseIrrelevant` |
| RecordParser.HasRequiredHeaders | src/components/ListDistribution.tsx:57-60 | no contract; see `AllColumns`, `TokensAsFields`, `MissingColumnRejected` |
| RecordParser.CellValue | src/components/ListDistribution.tsx:69 | no contract; see `CellValuesUnquoted`, `JsBuiltins.RemoveAll`, `JsBuiltins.TrimCutsEnds` |
| RecordParser.CellValues | src/components/ListDistribution.tsx:69 | no contract; see `CellCount`, `CellValuesUnquoted` |
| RecordParser.RowRecords | src/components/ListDistribution.tsx:69-76 | no contract; see `RowsSingle`, `ShortRowDropped`, `RowsPositional` |
| RecordParser.Rows | src/components/ListDistribution.tsx:66-77 | no contract; see `ReadRows`, `RowsConcat`, `RowsLength`, `RowsPositional`, `RowsUnquoted` |
| RecordParser.RowsStep | src/components/ListDistribution.tsx:68-77 | one more data line appends exactly that line's records |
| RecordParser.ParseContent | src/components/ListDistribution.tsx:52-80 | no contract; see `ParseCsv`, `NoLinesIff`, `ParsedRecords` |
| RecordParser.ReadRows | src/components/ListDistribution.tsx:66-77 | the loop returns the records of the lines after the header, one per line of three cells or more, in file order |
| RecordParser.ParseCsv | src/components/ListDistribution.tsx:52-80 | returns exactly `ParseContent`: the error when there is no line or the header lacks a column, and otherwise the records of the data lines in file order |
| RecordParser.NoLinesIff | src/components/ListDistribution.tsx:53-54 | the parse fails for want of a first line exactly when the content is all whitespace, empty included |
| RecordParser.CellCount | src/components/ListDistribution.tsx:69-70 | a line has one more cell than it has commas |
| RecordParser.RowsConcat | src/components/ListDistribution.tsx:68-77 | the records of two runs of lines are the records of each, in order |
| RecordParser.RowsSingle | src/components/ListDistribution.tsx:70-76 | one line's records are what that line contributes |
| RecordParser.ShortRowDropped | src/components/ListDistribution.tsx:70 | a line with fewer than three cells contributes nothing, wherever it appears |
| RecordParser.RowsLength | src/components/ListDistribution.tsx:68-77 | at most one record per data line |
| RecordParser.RowsPositional | src/components/ListDistribution.tsx:71-75 | when every line has three cells, record j is built from line j's first, second and third cells, whatever order the header named the columns in |
| RecordParser.CellValuesUnquoted | src/components/ListDistribution.tsx:69 | no cell keeps a double quote |
| RecordParser.RowsUnquoted | src/components/ListDistribution.tsx:71-75 | no field of any record contains a double quote |
| RecordParser.ParsedRecords | src/components/ListDistribution.tsx:52-80 | a successful parse saw at least one line, returns at most one record per line after the header, and no record holds a double quote |
| RecordParser.HeaderCaseIrrelevant | src/components/ListDistribution.tsx:54 | the header fields of a line do not depend on its letter case |
| RecordParser.HeaderFieldsConcat | src/components/ListDistribution.tsx:54 | the header fields of `a,b` are the fields of a followed by those of b |
| RecordParser.HeaderOrderIrrelevant | src/components/ListDistribution.tsx:57-60 | swapping the two sides of a header line at a comma does not change whether it is accepted |
| RecordParser.PhoneNumberMatches | src/components/ListDistribution.tsx:58-59 | a field `phone number` satisfies the `phone` column, because the test is by substring |
| RecordParser.TokensAsFields | src/components/ListDistribution.tsx:57-60 | a header with each of the three tokens as a field passes, in any order |
| RecordParser.CanonicalNames | src/components/ListDistribution.tsx:54 | `Phone`, `FirstName` and `Notes` become `phone`, `firstname` and `notes` |
| RecordParser.ReorderedHeaderAccepted | src/components/ListDistribution.tsx:54-64 | the header `Phone,FirstName,Notes` is accepted |
| RecordParser.HeaderNameIs | src/components/ListDistribution.tsx:54 | a field with non-blank ends whose characters lower-case one by one to a name becomes that name |
| RecordParser.NameFirstName | src/components/ListDistribution.tsx:54 | `FirstName` becomes `firstname` |
| RecordParser.NamePhone | src/components/ListDistribution.tsx:54 | `Phone` becomes `phone` |
| RecordParser.NamePhoneNumber | src/components/ListDistribution.tsx:54 | `Phone Number` becomes `phone number` |
| RecordParser.ColumnAt | src/components/ListDistribution.tsx:59 | a field that contains the token gives the header that column |
| RecordParser.AllColumns | src/components/ListDistribution.tsx:57-60 | a header that has all three columns passes |
| RecordParser.MissingColumnRejected | src/components/ListDistribution.tsx:54-64 | a two-field header in which neither field contains one of the tokens is rejected |
| RecordParser.MissingNotesRejected | src/components/ListDistribution.tsx:54-64 | a two-field header whose fields read `firstname` and `phone`, as in `FirstName,Phone`, is rejected for want of `notes` |
| RecordParser.ThreeFieldsAccepted | src/components/ListDistribution.tsx:54-60 | a three-field header whose fields contain `firstname`, `phone` and `notes` in that order passes |
| RecordParser.PhoneNumberIncludesPhone | src/components/ListDistribution.tsx:59 | `phone number` includes `phone` |
| RecordParser.PhoneNumberHeaderAccepted | src/components/ListDistribution.tsx:54-60 | a three-field header whose fields read `firstname`, `phone number` and `notes`, as in `FirstName,Phone Number,Notes`, is accepted |
| Partitioner.GroupStart | src/components/ListDistribution.tsx:88 | no contract; see `GroupEndBounded`, `RemainderOverlaps`, `EvenSplitIsPartition` |
| Partitioner.GroupEnd | src/components/ListDistribution.tsx:89 | no contract; see `GroupEndBounded`, `GroupSizes`, `RemainderLosesTail` |
| Partitioner.GroupEndBounded | src/components/ListDistribution.tsx:88-89 | every agent's end index lies between its start and the number of records, so `slice` never truncates |
| Partitioner.DistributeItems | src/components/ListDistribution.tsx:82-98 | one share per agent, in roster order and under the agent's name; an empty roster gives no shares; share i is exactly the records from `i * base` to its end index |
| Partitioner.GroupSizes | src/components/ListDistribution.tsx:84-89 | agent i receives base + 1 records when i < rem, and base otherwise |
| Partitioner.Balanced | src/components/ListDistribution.tsx:84-89 | share sizes never increase along the roster and differ by at most one |
| Partitioner.TotalOfSizes | src/components/ListDistribution.tsx:84-89 | shares of those sizes total j * base + min(j, rem) over the first j agents |
| Partitioner.TotalIsItemCount | src/components/ListDistribution.tsx:82-98 | the share sizes add up to the number of records |
| Partitioner.FlattenTiles | src/components/ListDistribution.tsx:93 | shares that are consecutive slices from index 0 concatenate to the records up to where they stop |
| Partitioner.EvenSplitIsPartition | src/components/ListDistribution.tsx:82-98 | when the roster size divides the record count, the shares in roster order concatenate to exactly the records |
| Partitioner.RemainderLosesTail | src/components/ListDistribution.tsx:88-89 | with a remainder, no share reaches past `n - rem`, or past 1 with fewer records than agents; those indices belong to no share, and with two or more records that bound is below n |
| Partitioner.RemainderOverlaps | src/components/ListDistribution.tsx:88-93 | with a remainder and two or more records, the roster has at least two agents, and record `base` ends agent 0's share and starts agent 1's |
| Partitioner.SevenOverThree | src/components/ListDistribution.tsx:82-98 | seven records over three agents give the shares `[0,3)`, `[2,4)` and `[4,6)` |
| DistributionSession.ProcessUpload | src/components/ListDistribution.tsx:100-131 | success exactly when a file is chosen, passes the type test, parses, and yields at least one record; each failure is reported as the first guard that fails; on success the entry carries the given id and date, the file name, the record count and the distribution of the records |
| DistributionSession.ProcessedEntryWellFormed | src/components/ListDistribution.tsx:123-131 | a successful entry has at least one record and one share per agent under the roster names; for a non-empty roster the share sizes add up to the stored count |
| DistributionSession.InvalidTypeIgnoresText | src/components/ListDistribution.tsx:104-111 | a file that fails the type test is refused whatever its text |
| DistributionSession.BlankFileFails | src/components/ListDistribution.tsx:116-117 | a valid file with blank text fails in the parser for want of a first line, not as an empty upload |
| DistributionSession.RosterSixRecords | src/components/ListDistribution.tsx:31-37 | over the component's five-agent roster, six records give agent 0 records 0 and 1 and agent 1 record 1 again, and record 5 goes to nobody |
| DistributionSession.ListDistribution.constructor | src/components/ListDistribution.tsx:27 | the history starts empty |
| DistributionSession.ListDistribution.HandleFileUpload | src/components/ListDistribution.tsx:100-152 | the outcome is `ProcessUpload`'s; a success prepends exactly that entry; every failure leaves the history unchanged; every entry stays well formed |

## Left out

- Rendering, the toasts and their messages are not modelled. The failure kinds of `UploadError` stand in for the toasts that are shown.
- The `uploading` flag (lines 113 and 147) is not modelled: it only drives the UI. The same goes for clearing the file input (lines 148-150).
- Reading the file (`await file.text()`) is not modelled. The content is the `text` field of `FileInfo`. The asynchrony and a failing read are not modelled.
- The clock is not modelled. `Date.now().toString()` and `new Date().toLocaleDateString()` become the `id` and `uploadDate` parameters. Nothing is claimed about their format or uniqueness.
- JsBuiltins.Trim: it strips only the ASCII whitespace characters (space, tab, line feed, carriage return, vertical tab, form feed). JavaScript's `trim` also strips the non-breaking space, the byte-order mark, the line and paragraph separators and the other Unicode space separators.
- JsBuiltins.ToLower: it maps only `A`–`Z` and keeps the length. JavaScript's `toLowerCase` also lower-cases non-ASCII letters, and can change the length: `İ` becomes two code units. Line 47 applies the index found in the original name to the lowered name, so for `İ.csv` the source takes the extension to be a combining dot (U+0307) followed by `.csv` and rejects it, whereas `FileValidator.FileExtension` and `FileValidator.ExtensionIsSuffix` accept it.
- The class `DistributionSession.ListDistribution` stands for the component's state hook. React's batching of state updates, re-rendering and overlapping uploads are not modelled.
- `.xlsx` and `.xls` workbooks are not decoded, just as in the component: they are read as text and parsed as CSV.
- The other components (`AgentManagement`, `DashboardHome`, `Dashboard`) are not part of this model.
