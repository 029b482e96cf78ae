# Maximis.Toolkit core, modelled in Dafny

This project models the self-contained logic of the Maximis toolkit. The
toolkit is a set of helpers around the Dynamics CRM (Xrm) SDK and a few
Office and text utilities. Each core source file becomes one Dafny module,
in the same form as the source:

- Code that changes state step by step becomes classes with `modifies`
  clauses, or methods with loops and their invariants. Examples are the CSV
  writer, the trace progress reporter, the data item, the Word modifier and
  the update diff.
- Expression code becomes functions and lemmas.

CRM records are modelled as follows:

- An `Entity` is a class holding a logical name, an Id and a map of
  attribute values.
- Values of the SDK types (`OptionSetValue`, `EntityReference`, `Money`,
  `AliasedValue`, ...) are cases of one `Value` datatype.
- `Guid` is a natural number, and `0` stands for `Guid.Empty`.
- An exception is the `Failure` case of a `Result`, carrying the exception's
  name or message.
- Dates are day numbers. The weekday is the day number modulo 7, and day 0
  is a Monday.

Shared modules:

- `Wrappers`: `Option`, `Result`, and `Single` (the outcome of LINQ `Single`).
- `Text`: the .NET string operations the toolkit relies on: `Trim`,
  `IndexOf`, ordinal `Replace`, `\s+` collapsing, upper-casing and number
  formatting.
- `Xrm`: the record and value types, the SDK's typed attribute read and the
  metadata records.

Foreign calls are parameters of the operations that need them:

- `Guid.TryParse`, `ToString` of an arbitrary object, the ISO date format and
  the local-to-UTC conversion are passed in as functions.
- Entity metadata from the organization service is passed in as a map from
  entity type to metadata.

## Model

| member | source | states |
|---|---|---|
| ToolkitExtensions.FlattenAppend | Maximis.Toolkit/ExtensionMethods.cs:9-25 | concatenating one more batch extends the flattened sequence by exactly that batch |
| ToolkitExtensions.InSetsOf | Maximis.Toolkit/ExtensionMethods.cs:9-25 | fails exactly when max < 0 (the list capacity throws); the batches concatenate back to the source in order; no batch is empty; with max > 0 every batch has at most max items and all but the last exactly max; with max == 0 the source is one batch (none when it is empty) |
| ToolkitExtensions.LeftOfFirst | Maximis.Toolkit/ExtensionMethods.cs:27-31 | the string itself when c is absent; otherwise a prefix, followed in s by c, that holds no c |
| ToolkitExtensions.LeftOfLast | Maximis.Toolkit/ExtensionMethods.cs:33-37 | the string itself when c is absent; otherwise a prefix followed by c, with no c after that c |
| ToolkitExtensions.RightOfFirst | Maximis.Toolkit/ExtensionMethods.cs:39-43 | the string itself when c is absent; otherwise s == LeftOfFirst(s, c) + c + result |
| ToolkitExtensions.RightOfLast | Maximis.Toolkit/ExtensionMethods.cs:45-49 | the string itself when c is absent; otherwise s == LeftOfLast(s, c) + c + result, and the result holds no c |
| ToolkitExtensions.LastSplit | Maximis.Toolkit/ExtensionMethods.cs:33-49 | when c occurs, RightOfLast is the suffix after LeftOfLast and its c, and holds no c |
| ToolkitExtensions.TruncateWithEllipsis | Maximis.Toolkit/ExtensionMethods.cs:92-96 | unchanged when maxLength <= 0 or the length is at most maxLength - 3; otherwise the first maxLength - 3 characters and "..."; never longer than a positive maxLength |
| ToolkitExtensions.TruncateAlteredFittingString | Maximis.Toolkit/ExtensionMethods.cs:94 | "abcd" fits in 4 characters, yet truncating it to 4 gives "a..." |
| ToolkitExtensions.TruncateToFit | Maximis.Toolkit/ExtensionMethods.cs:92-96 | a string that fits in maxLength is unchanged; a longer one becomes exactly maxLength characters: the first maxLength - 3 characters of the string, then "..." |
| Csv.TextBuffer.Write | Maximis.Toolkit/Csv/CsvWriter.cs:47-57 | the buffer grows by exactly the written text |
| Csv.TextBuffer.WriteLine | Maximis.Toolkit/Csv/CsvWriter.cs:47 | the buffer grows by exactly NewLine |
| Csv.FirstDuplicate | Maximis.Toolkit/Csv/CsvWriter.cs:18-23 | -1 exactly when the headings are distinct; otherwise the first index whose heading already occurred, with the headings before it distinct |
| Csv.RegisterHeading | Maximis.Toolkit/Csv/CsvWriter.cs:18-23 | one loop step: the heading is already in the index exactly when it occurred earlier; otherwise adding it indexes one more heading, and the header row grows by that heading's cell |
| Csv.CsvWriter.Init | Maximis.Toolkit/Csv/CsvWriter.cs:11-16 | a writer over the buffer with no headings and AlwaysEncloseInQuotes true |
| Csv.CsvWriter.Create | Maximis.Toolkit/Csv/CsvWriter.cs:13-25 | succeeds exactly when the headings are distinct; heading i then maps to index i, ColumnCount is the number of headings, and the header row is written; on a duplicate, only the cells before it were written |
| Csv.CsvWriter.SetAlwaysEncloseInQuotes | Maximis.Toolkit/Csv/CsvWriter.cs:27 | sets the flag and changes nothing else |
| Csv.CsvWriter.WriteValue | Maximis.Toolkit/Csv/CsvWriter.cs:40-43 | appends exactly the data cell for that index and value |
| Csv.CsvWriter.WriteValueByHeading | Maximis.Toolkit/Csv/CsvWriter.cs:35-38 | fails (KeyNotFoundException) exactly when the heading is unknown, writing nothing; otherwise writes the cell at the heading's index |
| Csv.CsvWriter.WriteCell | Maximis.Toolkit/Csv/CsvWriter.cs:45-58 | appends exactly Cell(index, value, isHeaderRow, alwaysEncloseInQuotes) |
| Csv.CellSeparators | Maximis.Toolkit/Csv/CsvWriter.cs:47-48 | a data cell at index 0 starts with NewLine; the field always comes last, preceded by exactly one comma at a positive index and by no comma otherwise; a header cell at index 0 is the field alone |
| Csv.BlankValueWritesSeparatorsOnly | Maximis.Toolkit/Csv/CsvWriter.cs:49-52 | a null or whitespace-only value writes only its newline and comma separators |
| Csv.EscapeRoundTrip | Maximis.Toolkit/Csv/CsvWriter.cs:55 | unescaping `\"` gives back the text before escaping |
| Csv.EscapeCharRoundTrip | Maximis.Toolkit/Csv/CsvWriter.cs:55 | the same round trip, for the per-character form of the replacement |
| Csv.EscapedStart | Maximis.Toolkit/Csv/CsvWriter.cs:55 | escaped text never starts with a bare quote |
| Csv.EscapeKeepsSeparators | Maximis.Toolkit/Csv/CsvWriter.cs:55-56 | escaping neither adds nor removes the characters that force quoting |
| Csv.EscapeCharKeepsSeparators | Maximis.Toolkit/Csv/CsvWriter.cs:55-56 | the same, for the per-character form of the replacement |
| Csv.NonBlankField | Maximis.Toolkit/Csv/CsvWriter.cs:54-57 | a non-blank value is trimmed and escaped; it is quoted exactly when quoting is forced or the trimmed text holds a comma or whitespace; unquoting and unescaping give back the trimmed text |
| UpdateHelper.Decide | Maximis.Toolkit.Xrm/UpdateHelper.cs:65-136 | the fate of one key: with no current value, dropped exactly when the new value is null or prints empty; set to null exactly when the current value is the empty string and the new one is null or empty; a cast error exactly when a typed current value meets a non-null value of another type; otherwise kept exactly when the value changes as SameValue compares (reference Ids, UTC instants, Money amounts, equality for the rest) |
| UpdateHelper.GetUpdateEntity | Maximis.Toolkit.Xrm/UpdateHelper.cs:56-141 | fails on different Ids, leaving the update unchanged; name and Id never change; no key is added; on success the same update object is returned, reduced key by key as Decide says; a failing cast leaves the keys processed so far reduced |
| UpdateHelper.HandleKey | Maximis.Toolkit.Xrm/UpdateHelper.cs:63-137 | one loop step removes the key, sets it to null, or keeps it, as Decide says, and leaves every other key alone |
| UpdateHelper.ReductionIdempotent | Maximis.Toolkit.Xrm/UpdateHelper.cs:56-141 | reducing an already reduced update against the same current record changes nothing |
| XrmExtensions.AttributePresence | Maximis.Toolkit.Xrm/ExtensionMethods.cs:23-34 | a key is present exactly when HasAttributeWithValue or HasNullAttribute holds, never both; a null entity has no attribute with a value |
| XrmExtensions.Merge | Maximis.Toolkit.Xrm/ExtensionMethods.cs:39-49 | with a null primary the result is the secondary; otherwise the primary itself, keeping its name, Id and values, and gaining every key only the secondary has, with the secondary's value (null included) |
| XrmExtensions.ToEntity | Maximis.Toolkit.Xrm/ExtensionMethods.cs:64-75 | a new record with no attributes, whose reference has the original logical name and Id |
| XrmExtensions.SameReferenceSameRecord | Maximis.Toolkit.Xrm/ExtensionMethods.cs:72-75 | ToEntityReference: two entities give the same reference exactly when they share type and Id, whatever their attributes |
| BusinessClosure.WorkingDayIsWeekday | Maximis.Toolkit.Xrm/BusinessClosureHelper.cs:58-68 | with the default weekend, a day is working exactly when it is not a closure date and falls from Monday to Friday |
| BusinessClosure.WorkingDayOnWeekly | Maximis.Toolkit.Xrm/BusinessClosureHelper.cs:58-63 | IsWorkingDay with explicit non-working weekdays: away from closure dates, a day and the same weekday a week later are both working or both not |
| BusinessClosure.WorkingDayOnMonotone | Maximis.Toolkit.Xrm/BusinessClosureHelper.cs:58-63 | IsWorkingDay with explicit non-working weekdays: more closure dates or more non-working weekdays never make a day a working day |
| BusinessClosure.AddWorkingDays | Maximis.Toolkit.Xrm/BusinessClosureHelper.cs:12-33 | zero days returns the date; forward, the result is a later working day with exactly daysToAdd working days in (date, result]; backward, an earlier working day with exactly -daysToAdd working days in [result, date) |
| BusinessClosure.ForwardResultUnique | Maximis.Toolkit.Xrm/BusinessClosureHelper.cs:16-23 | only one working day satisfies the forward postcondition |
| BusinessClosure.CountWorkingSplit | Maximis.Toolkit.Xrm/BusinessClosureHelper.cs:16-31 | working-day counts over adjacent ranges add up |
| BusinessClosure.CountWorkingPositive | Maximis.Toolkit.Xrm/BusinessClosureHelper.cs:16-31 | a range (lo, hi] whose last day is a working day counts at least one working day |
| BusinessClosure.Run | Maximis.Toolkit.Xrm/BusinessClosureHelper.cs:47-53 | count consecutive days from the start, none for a non-positive count |
| BusinessClosure.GetBusinessClosureDates | Maximis.Toolkit.Xrm/BusinessClosureHelper.cs:42-56 | each rule contributes duration/1440 consecutive days from its start, in rule order |
| BusinessClosure.ClosureDateCovered | Maximis.Toolkit.Xrm/BusinessClosureHelper.cs:45-54 | a day is a closure date exactly when some rule's run covers it |
| BusinessClosure.ClosureDatesLength | Maximis.Toolkit.Xrm/BusinessClosureHelper.cs:45-54 | the number of closure dates is the sum of the rules' day counts |
| ExcelXmlReader.ExcelColumnNameToNumber | Maximis.Toolkit/Office/ExcelXmlReader.cs:142-152 | the loop computes the bijective base-26 value of the name, the same as for the upper-cased name |
| ExcelXmlReader.ColumnNumberExamples | Maximis.Toolkit/Office/ExcelXmlReader.cs:142-152 | "A" is 1, "Z" 26, "AA" 27, "az" 52, the empty name 0 |
| ExcelXmlReader.ColumnNumberRange | Maximis.Toolkit/Office/ExcelXmlReader.cs:146-150 | a name of n letters numbers a column between the lowest and highest n-letter values |
| ExcelXmlReader.LongerNameLaterColumn | Maximis.Toolkit/Office/ExcelXmlReader.cs:146-150 | a longer letter name numbers a later column |
| ExcelXmlReader.ColumnNumberInjective | Maximis.Toolkit/Office/ExcelXmlReader.cs:144-151 | two letter names number the same column exactly when they agree up to case |
| ExcelXmlReader.SameLettersInjective | Maximis.Toolkit/Office/ExcelXmlReader.cs:146-150 | the same, stated letter by letter |
| ExcelXmlReader.LastLetter | Maximis.Toolkit/Office/ExcelXmlReader.cs:148 | one base-26 digit step is injective in the prefix value and the letter |
| ExcelXmlReader.LeadingLetters | Maximis.Toolkit/Office/ExcelXmlReader.cs:16 | the first match of `[A-Z]*`: the longest prefix of letters |
| ExcelXmlReader.CalculateBlankCells | Maximis.Toolkit/Office/ExcelXmlReader.cs:137-140 | the column of the reference's letters minus the current index; positive exactly when the reference lies beyond it |
| ExcelXmlReader.RowDigitsIgnored | Maximis.Toolkit/Office/ExcelXmlReader.cs:137-140 | the row digits after the letters do not change the column |
| ExcelXmlReader.Columns | Maximis.Toolkit/Office/ExcelXmlReader.cs:97-99 | the column of each cell reference, in order |
| ExcelXmlReader.PlaceNext | Maximis.Toolkit/Office/ExcelXmlReader.cs:99-109 | padding up to the next cell's column and writing the cell keeps every written cell at its column |
| ExcelXmlReader.CellsNext | Maximis.Toolkit/Office/ExcelXmlReader.cs:99-109 | the written cells stay the first k cells in order after one more step |
| ExcelXmlReader.PadRow | Maximis.Toolkit/Office/ExcelXmlReader.cs:93-130 | every cell of the row is written once, in order; with strictly increasing references, each sits at its column |
| ExcelXmlReader.SheetPathInjective | Maximis.Toolkit/Office/ExcelXmlReader.cs:156-161 | different sheet numbers name different parts |
| ExcelXmlReader.PopulateWorksheetNames | Maximis.Toolkit/Office/ExcelXmlReader.cs:154-162 | fails exactly when a sheet part is already named; otherwise the i-th title (from 1) is added under `xl/worksheets/sheet{i}.xml` and earlier entries are kept |
| ExcelXmlReader.ClassifyEntry | Maximis.Toolkit/Office/ExcelXmlReader.cs:32-47 | app properties, shared strings or a worksheet part, by the entry name, in that order of tests |
| ExcelXmlReader.SheetPathIsWorksheetPart | Maximis.Toolkit/Office/ExcelXmlReader.cs:43 | every part named by PopulateWorksheetNames is kept as worksheet content |
| ExcelXmlReader.BuildWorksheets | Maximis.Toolkit/Office/ExcelXmlReader.cs:51-55 | succeeds exactly when every named part has content and the titles are distinct; each title then maps to its part's content |
| ExcelXmlReader.CellText | Maximis.Toolkit/Office/ExcelXmlReader.cs:110-126 | nothing for an empty cell; for t = "s" the indexed shared string with non-breaking spaces as spaces, failing when the index does not parse or is out of range; for style 1 the formatted date, failing when the number does not parse; otherwise the text itself |
| WordDocumentModifier.Modifier.constructor | Maximis.Toolkit/Office/WordDocumentModifierBase.cs:17-21 | no replacement list |
| WordDocumentModifier.Modifier.AddReplacement | Maximis.Toolkit/Office/WordDocumentModifierBase.cs:23-27 | creates the list when missing and appends exactly one Ignore entry at its end |
| WordDocumentModifier.Modifier.PerformOperationWorker | Maximis.Toolkit/Office/WordDocumentModifierBase.cs:41-70 | applies the replacements one after the other to the running text; with no list the input is returned unchanged |
| WordDocumentModifier.EscapeAmpersandsRoundTrip | Maximis.Toolkit/Office/WordDocumentModifierBase.cs:50 | turning `&amp;` back into `&` undoes the escaping |
| WordDocumentModifier.UnescapeEscaped | Maximis.Toolkit/Office/WordDocumentModifierBase.cs:50 | the same round trip, for the per-character form of the replacement |
| WordDocumentModifier.LineBreaksReplaced | Maximis.Toolkit/Office/WordDocumentModifierBase.cs:53-62 | with LineBreak or ParagraphBreak no CR or LF is left in the replacement text |
| WordDocumentModifier.ParagraphBreakWraps | Maximis.Toolkit/Office/WordDocumentModifierBase.cs:60-62 | ParagraphBreak wraps the text in `<w:p>` ... `</w:p>` |
| WordDocumentModifier.IgnoreKeepsText | Maximis.Toolkit/Office/WordDocumentModifierBase.cs:50-51 | with Ignore, the replacement text is only ampersand-escaped |
| WordDocumentModifier.ApplyAllAppend | Maximis.Toolkit/Office/WordDocumentModifierBase.cs:48-66 | applying two lists is applying the first, then the second to its result |
| WordDocumentModifier.AddedReplacementRunsLast | Maximis.Toolkit/Office/WordDocumentModifierBase.cs:23-27 | an added replacement runs after all earlier ones; an empty original text throws |
| WordDocumentModifier.AbsentTextUnchanged | Maximis.Toolkit/Office/WordDocumentModifierBase.cs:64 | a replacement whose original text does not occur leaves the document unchanged |
| TraceProgress.Reporter.constructor | Maximis.Toolkit/Logging/TraceProgressReporter.cs:12-16 | the trace holds `message + "..."`; counters are zero and the operation is not complete |
| TraceProgress.Reporter.IterationComplete | Maximis.Toolkit/Logging/TraceProgressReporter.cs:25-38 | TotalProcessed grows by exactly n; with a positive point, a dot is logged and the counter reset exactly when it reaches the point; with point <= 0 nothing is logged and the counter is unchanged |
| TraceProgress.Reporter.IterationFailed | Maximis.Toolkit/Logging/TraceProgressReporter.cs:40-43 | logs ` [message] ` and changes nothing else |
| TraceProgress.Reporter.OperationComplete | Maximis.Toolkit/Logging/TraceProgressReporter.cs:45-59 | logs the Done line only when not already complete, then marks the operation complete |
| TraceProgress.Reporter.Dispose | Maximis.Toolkit/Logging/TraceProgressReporter.cs:20-23 | behaves as OperationComplete |
| TraceProgress.Reporter.OperationFailed | Maximis.Toolkit/Logging/TraceProgressReporter.cs:61-65 | logs the failure line and marks the operation complete, so no Done line follows |
| TraceProgress.Reporter.WriteInfo | Maximis.Toolkit/Logging/TraceProgressReporter.cs:67-70 | logs `message + "..."` and changes nothing else |
| TraceProgress.DoneMessage | Maximis.Toolkit/Logging/TraceProgressReporter.cs:49-56 | the closing line is a Done line |
| TraceProgress.AtMostOneDone | Maximis.Toolkit/Logging/TraceProgressReporter.cs:20-65 | however the reporter is used, at most one Done line is logged, and none before completion |
| CsvImportExport.GetLabel | Maximis.Toolkit.Xrm/ImportExport/CsvImportExportHelper.cs:118-123 | "[No Display Name]" when the metadata, its display name or the label is missing or empty; otherwise the label; never empty |
| CsvImportExport.CloseFrom | Maximis.Toolkit.Xrm/ImportExport/CsvImportExportHelper.cs:129 | the end of the lazy `\[.*?\]` match: the first ']' with no line feed before it, or none |
| CsvImportExport.MatchesFrom | Maximis.Toolkit.Xrm/ImportExport/CsvImportExportHelper.cs:129 | the matches from a position on, each a bracket match, in order and not overlapping |
| CsvImportExport.NoBracketNoMatch | Maximis.Toolkit.Xrm/ImportExport/CsvImportExportHelper.cs:324 | text without '[' has no match |
| CsvImportExport.GetValuesFromSquareBrackets | Maximis.Toolkit.Xrm/ImportExport/CsvImportExportHelper.cs:320-334 | each match's inner text in order of appearance, then the leftover text with the matches removed |
| CsvImportExport.AddLeftover | Maximis.Toolkit.Xrm/ImportExport/CsvImportExportHelper.cs:329-332 | the trimmed leftover is appended last exactly when it is not whitespace |
| CsvImportExport.Next | Maximis.Toolkit.Xrm/ImportExport/CsvImportExportHelper.cs:324-328 | one loop step appends the inner text and removes the match text from the value |
| CsvImportExport.BracketValuesPlain | Maximis.Toolkit.Xrm/ImportExport/CsvImportExportHelper.cs:326 | a bracket value holds no ']' and no line feed |
| CsvImportExport.PlainCell | Maximis.Toolkit.Xrm/ImportExport/CsvImportExportHelper.cs:329-332 | a cell without brackets gives its trimmed text, or nothing when blank |
| CsvImportExport.BracketExample | Maximis.Toolkit.Xrm/ImportExport/CsvImportExportHelper.cs:320-334 | "[a]b" gives "a" and then "b" |
| CsvImportExport.Step | Maximis.Toolkit.Xrm/ImportExport/CsvImportExportHelper.cs:284-303 | a set Id or type is never overwritten; a token only ever becomes the name |
| CsvImportExport.ScanId | Maximis.Toolkit.Xrm/ImportExport/CsvImportExportHelper.cs:284-291 | the Id is the first non-empty Guid among the tokens, and empty when there is none |
| CsvImportExport.ScanOrigins | Maximis.Toolkit.Xrm/ImportExport/CsvImportExportHelper.cs:293-303 | a set type is the logical name the metadata gives some token; a set name is a token |
| CsvImportExport.ScanType | Maximis.Toolkit.Xrm/ImportExport/CsvImportExportHelper.cs:293-302 | the type is the logical name given by the first token that was not taken as the Id and that the metadata knows with a non-empty logical name; unset exactly when no such token exists |
| CsvImportExport.ScanName | Maximis.Toolkit.Xrm/ImportExport/CsvImportExportHelper.cs:284-303 | the name is the last token that set neither the Id nor the type; unset exactly when every token set one of them |
| CsvImportExport.GetEntityReference | Maximis.Toolkit.Xrm/ImportExport/CsvImportExportHelper.cs:279-318 | null exactly when no Guid is found, or when no type is found and there is not exactly one lookup target; otherwise the scanned Id and name, and the scanned type or else the single target |
| ImportExport.GetFullAttributeName | Maximis.Toolkit.Xrm/ImportExport/ImportExportHelper.cs:38-41 | the name itself without an alias, otherwise alias, '.', name |
| ImportExport.QualifiedNameSplits | Maximis.Toolkit.Xrm/ImportExport/ImportExportHelper.cs:38-41 | a qualified name splits back at its first '.' into the alias and the name |
| ImportExport.QualificationInjective | Maximis.Toolkit.Xrm/ImportExport/ImportExportHelper.cs:38-41 | different names stay different under one alias |
| ImportExport.Qualify | Maximis.Toolkit.Xrm/ImportExport/ImportExportHelper.cs:34 | each column qualified, same order and length |
| ImportExport.LessIrreflexive | Maximis.Toolkit.Xrm/ImportExport/ImportExportHelper.cs:29 | the ordinal order is irreflexive |
| ImportExport.LessTransitive | Maximis.Toolkit.Xrm/ImportExport/ImportExportHelper.cs:29 | the ordinal order is transitive |
| ImportExport.LessTotal | Maximis.Toolkit.Xrm/ImportExport/ImportExportHelper.cs:29 | any two different names are ordered |
| ImportExport.InsertSorted | Maximis.Toolkit.Xrm/ImportExport/ImportExportHelper.cs:29 | inserting keeps the list strictly sorted and adds exactly the new name |
| ImportExport.SortedDistinct | Maximis.Toolkit.Xrm/ImportExport/ImportExportHelper.cs:29 | the names in ascending order, each once |
| ImportExport.Except | Maximis.Toolkit.Xrm/ImportExport/ImportExportHelper.cs:29 | exactly the names of the first list not in the second, still sorted |
| ImportExport.ColumnSetAttributes | Maximis.Toolkit.Xrm/ImportExport/ImportExportHelper.cs:21-36 | the listed columns qualified in order; for all columns, a failure exactly when the entity has no metadata |
| ImportExport.PrimaryColumns | Maximis.Toolkit.Xrm/ImportExport/ImportExportHelper.cs:27-28 | at most the primary id and primary name |
| ImportExport.GetAllAttributesFromColumnSet | Maximis.Toolkit.Xrm/ImportExport/ImportExportHelper.cs:21-36 | builds ColumnSetAttributes with its list appends |
| ImportExport.AllColumnsOrder | Maximis.Toolkit.Xrm/ImportExport/ImportExportHelper.cs:27-29 | the primary id first and the primary name second, each when non-empty, then the other names in ascending order, all qualified |
| ImportExport.PrefixThenSortedDistinct | Maximis.Toolkit.Xrm/ImportExport/ImportExportHelper.cs:27-29 | at most two different names followed by a sorted list without them hold no duplicate |
| ImportExport.AllColumnsDistinct | Maximis.Toolkit.Xrm/ImportExport/ImportExportHelper.cs:27-29 | no column is listed twice unless the primary id and primary name are the same attribute |
| ImportExport.GetAllQueryAttributes | Maximis.Toolkit.Xrm/ImportExport/ImportExportHelper.cs:10-19 | the main entity's columns, then each link entity's, in query order |
| ImportExport.GetLinkAttributes | Maximis.Toolkit.Xrm/ImportExport/ImportExportHelper.cs:14-17 | the link entities' columns, in order; the first failing link's error |
| ImportExport.QueryParts | Maximis.Toolkit.Xrm/ImportExport/ImportExportHelper.cs:10-19 | the query's columns are the main part followed by the links' part, and fail with the links' error |
| ImportExport.LinkFailure | Maximis.Toolkit.Xrm/ImportExport/ImportExportHelper.cs:14-17 | a failing link makes every longer list of links fail the same way |
| ImportExport.MainColumnsFirst | Maximis.Toolkit.Xrm/ImportExport/ImportExportHelper.cs:13-18 | the main entity's columns come first and unqualified |
| ImportExport.LinkColumnsQualified | Maximis.Toolkit.Xrm/ImportExport/ImportExportHelper.cs:14-17 | a link that lists its columns appends them in order, each under the link's alias |
| MetadataHelper.OptionValueToLabel | Maximis.Toolkit.Xrm/MetadataHelper.cs:31-36 | null exactly when no option has the value; otherwise the label of an option with that value; two such options throw |
| MetadataHelper.OptionValueFoundAt | Maximis.Toolkit.Xrm/MetadataHelper.cs:31-36 | the one option with the value gives its label, or throws NullReferenceException when it has none |
| MetadataHelper.OptionValueDuplicated | Maximis.Toolkit.Xrm/MetadataHelper.cs:33-34 | two options with the value throw SingleOrDefault's "more than one matching element" error |
| MetadataHelper.LabelToOptionValue | Maximis.Toolkit.Xrm/MetadataHelper.cs:59-65 | throws when an option has no label; null exactly when no label matches ignoring case; otherwise the value of a matching option |
| MetadataHelper.LabelFoundAt | Maximis.Toolkit.Xrm/MetadataHelper.cs:59-65 | with every option labelled, the one option whose label matches ignoring case gives its value |
| MetadataHelper.LabelDuplicated | Maximis.Toolkit.Xrm/MetadataHelper.cs:59-65 | with every option labelled, two matching labels throw SingleOrDefault's error |
| MetadataHelper.OptionRoundTrip | Maximis.Toolkit.Xrm/MetadataHelper.cs:31-65 | with unique values and labels, an option's label converts to its value and its value to its label |
| MetadataHelper.GetOptionSetLookup | Maximis.Toolkit.Xrm/MetadataHelper.cs:70-74 | succeeds exactly when values are unique and labelled; then it maps each value to its label; otherwise the first option in stable value order that is unlabelled or repeats an earlier value decides the error: NullReferenceException when unlabelled, the duplicate-key error otherwise |
| MetadataHelper.FirstFailing | Maximis.Toolkit.Xrm/MetadataHelper.cs:72-74 | none exactly when no option fails; otherwise a failing option that comes before every other failing one in stable value order |
| MetadataHelper.NoFailureMeansWellFormed | Maximis.Toolkit.Xrm/MetadataHelper.cs:72-74 | no option makes ToDictionary throw exactly when values are unique and every option is labelled |
| MetadataHelper.LookupLabelReadFirst | Maximis.Toolkit.Xrm/MetadataHelper.cs:72-74 | an unlabelled option first in value order throws NullReferenceException, even when its value repeats or an earlier-listed pair shares a larger value |
| MetadataHelper.LookupAgreesWithConversion | Maximis.Toolkit.Xrm/MetadataHelper.cs:70-74 | the lookup and the value-to-label conversion agree on every value |
| MetadataHelper.GetAttributeMetadata | Maximis.Toolkit.Xrm/MetadataHelper.cs:246-249 | null exactly when no attribute has the name; the one attribute with it; two throw |
| MetadataHelper.FilterOneToMany | Maximis.Toolkit.Xrm/MetadataHelper.cs:264-271 | exactly the one-to-many relationships satisfying the filter |
| MetadataHelper.FilterManyToMany | Maximis.Toolkit.Xrm/MetadataHelper.cs:264-271 | exactly the many-to-many relationships satisfying the filter |
| MetadataHelper.GetAllRelationships | Maximis.Toolkit.Xrm/MetadataHelper.cs:260-273 | the six groups for each requested type in turn, holding exactly the entity's relationships joining it with a requested type |
| MetadataHelper.AllRelationshipsMembers | Maximis.Toolkit.Xrm/MetadataHelper.cs:260-273 | membership in the result is exactly: own relationship and joins a requested type |
| MetadataHelper.GetRelationshipMetadata | Maximis.Toolkit.Xrm/MetadataHelper.cs:285-294 | null exactly when no relationship has the schema name; the first group holding the name (one-to-many, then many-to-one, then many-to-many) decides: it throws exactly when that group holds the name twice, and otherwise returns that group's one relationship of that name |
| MetadataHelper.DisplayStringOptions.constructor | Maximis.Toolkit.Xrm/DisplayStringOptions.cs:5-12 | BoolFalse "false", BoolTrue "true", CleanWhiteSpace off |
| MetadataHelper.DisplayStringOptions.SetBoolFalse | Maximis.Toolkit.Xrm/DisplayStringOptions.cs:8 | the setter discards its value: BoolFalse stays "false" |
| MetadataHelper.DisplayStringOptions.SetBoolTrue | Maximis.Toolkit.Xrm/DisplayStringOptions.cs:10 | the setter discards its value: BoolTrue stays "true" |
| MetadataHelper.DisplayStringOptions.SetCleanWhiteSpace | Maximis.Toolkit.Xrm/DisplayStringOptions.cs:12 | sets the flag |
| MetadataHelper.BooleanDisplay | Maximis.Toolkit.Xrm/MetadataHelper.cs:155-157 | null displays as BoolFalse, a bool by its value; any other value fails the cast |
| MetadataHelper.DefaultDisplay | Maximis.Toolkit.Xrm/MetadataHelper.cs:163-170 | null displays as null; otherwise the text, with whitespace runs collapsed to one space and trimmed when CleanWhiteSpace is on |
| Text.CollapseWhiteSpace | Maximis.Toolkit.Xrm/MetadataHelper.cs:14 | no two adjacent whitespace characters and only spaces; the same non-whitespace text; whitespace at the ends kept |
| Text.CleanWhiteSpace | Maximis.Toolkit.Xrm/MetadataHelper.cs:168 | collapsed and trimmed; the same non-whitespace text; empty exactly when the input is blank |
| Text.CollapseWord | Maximis.Toolkit.Xrm/MetadataHelper.cs:14 | text without whitespace is left exactly as it is |
| Text.CollapseJoin | Maximis.Toolkit.Xrm/MetadataHelper.cs:14 | a whitespace run, between two words or at one end, becomes exactly one space and the text on either side is collapsed on its own; with CollapseWord this pins the result down completely |
| Text.CleanJoin | Maximis.Toolkit.Xrm/MetadataHelper.cs:168 | a whitespace run between two words becomes exactly one space, and the text on either side is cleaned on its own |
| MetadataHelper.DefaultDisplayJoinsWords | Maximis.Toolkit.Xrm/MetadataHelper.cs:163-170 | with CleanWhiteSpace set, a whitespace run between two words of the displayed text shows as exactly one space |
| FetchXml.AddAliased | Maximis.Toolkit.Xrm/FetchXmlHelper.cs:54-64 | one contributing column keeps the grouping well formed |
| FetchXml.Grouped | Maximis.Toolkit.Xrm/FetchXmlHelper.cs:47-66 | the grouping of all columns is well formed |
| FetchXml.ExtractRelatedEntities | Maximis.Toolkit.Xrm/FetchXmlHelper.cs:43-69 | fails as the grouping does; otherwise one new, distinct entity per alias, in first-use order, holding exactly the grouped state |
| FetchXml.AddColumn | Maximis.Toolkit.Xrm/FetchXmlHelper.cs:51-64 | the loop body mirrors one grouping step on the entity objects, creating only new ones |
| FetchXml.GroupColumns | Maximis.Toolkit.Xrm/FetchXmlHelper.cs:45-66 | the loop over the columns fails exactly when the grouping does, with its error; otherwise the dictionary mirrors the grouped entities, in first-use order, all newly created |
| FetchXml.ValuesInOrder | Maximis.Toolkit.Xrm/FetchXmlHelper.cs:68 | one entity per alias in first-use order, each the dictionary's entity holding that alias's grouped state, no entity twice |
| FetchXml.EntityFor | Maximis.Toolkit.Xrm/FetchXmlHelper.cs:56-59 | an alias already present keeps its entity; a new alias gets a new entity with the column's logical name, no Id and no attributes, added at the end of the order |
| FetchXml.ApplyAliased | Maximis.Toolkit.Xrm/FetchXmlHelper.cs:60-64 | a primary-key column that does not hold a Guid fails the cast and changes nothing; otherwise the Id is set from a primary-key column and the attribute is stored under its own logical name |
| FetchXml.Applied | Maximis.Toolkit.Xrm/FetchXmlHelper.cs:60-64 | applying a column keeps the logical name, sets the Id only for the primary key, and stores the column's value under its attribute name |
| FetchXml.AddAliasedEntities | Maximis.Toolkit.Xrm/FetchXmlHelper.cs:54-64 | a successful grouping step changes only the alias's entity, to the column applied to it, and appends the alias to the order only when it is new |
| FetchXml.GroupedFails | Maximis.Toolkit.Xrm/FetchXmlHelper.cs:60-63 | the grouping fails exactly when a contributing primary-key column does not hold a Guid |
| FetchXml.GroupedAliases | Maximis.Toolkit.Xrm/FetchXmlHelper.cs:49-59 | one entity for each alias that some dotted, non-null aliased column contributes to |
| FetchXml.GroupedAttributeOrigins | Maximis.Toolkit.Xrm/FetchXmlHelper.cs:64 | every attribute of a related entity comes from a contributing column under its own logical name |
| FetchXml.GroupedAttributesPresent | Maximis.Toolkit.Xrm/FetchXmlHelper.cs:64 | every contributing column's attribute is present in its alias's entity |
| FetchXml.GroupedIds | Maximis.Toolkit.Xrm/FetchXmlHelper.cs:60-63 | a set Id is the Guid of a primary-key column of that alias |
| FetchXml.GroupedNames | Maximis.Toolkit.Xrm/FetchXmlHelper.cs:56-59 | an entity takes its logical name from a column contributing to its alias |
| FetchXml.GroupedFailure | Maximis.Toolkit.Xrm/FetchXmlHelper.cs:47-66 | once a column fails, the whole grouping fails with its error |
| DataItem.CellTypeOf | Maximis.Toolkit.Xrm/ImportExport/XmlSpreadsheet/DataItem.cs:58-88 | one of "Number", "Boolean", "DateTime", "String" |
| DataItem.Prepared | Maximis.Toolkit.Xrm/ImportExport/XmlSpreadsheet/DataItem.cs:46-91 | a null value clears both fields; otherwise an explicitly set cell type or text is kept and an unset one is computed; a DateTime sets the style to "dateTime" |
| DataItem.PreparedIdempotent | Maximis.Toolkit.Xrm/ImportExport/XmlSpreadsheet/DataItem.cs:46-91 | preparing twice is preparing once |
| DataItem.CellTypeSettles | Maximis.Toolkit.Xrm/ImportExport/XmlSpreadsheet/DataItem.cs:10-91 | after preparation a non-null value has a cell type, a computed one or the one set |
| DataItem.BooleanCells | Maximis.Toolkit.Xrm/ImportExport/XmlSpreadsheet/DataItem.cs:66-76 | a bool gives a Boolean cell holding "1" or "0" |
| DataItem.Item.constructor | Maximis.Toolkit.Xrm/ImportExport/XmlSpreadsheet/DataItem.cs:5-44 | the value, with no cell type, text or style |
| DataItem.Item.SetCellType | Maximis.Toolkit.Xrm/ImportExport/XmlSpreadsheet/DataItem.cs:19 | sets only the cell type |
| DataItem.Item.SetValueString | Maximis.Toolkit.Xrm/ImportExport/XmlSpreadsheet/DataItem.cs:40 | sets only the text |
| DataItem.Item.Prepare | Maximis.Toolkit.Xrm/ImportExport/XmlSpreadsheet/DataItem.cs:46-91 | the new state is Prepared of the old |
| DataItem.Item.GetCellType | Maximis.Toolkit.Xrm/ImportExport/XmlSpreadsheet/DataItem.cs:10-18 | prepares first exactly when no cell type is set, then returns it |
| DataItem.Item.GetValueString | Maximis.Toolkit.Xrm/ImportExport/XmlSpreadsheet/DataItem.cs:31-39 | prepares first exactly when no text is set, then returns it |
| DataItem.GetterResults | Maximis.Toolkit.Xrm/ImportExport/XmlSpreadsheet/DataItem.cs:10-42 | a non-null value always reads a cell type; set values read back unchanged; a null value reads null |
| DataItem.NullValueClearsText | Maximis.Toolkit.Xrm/ImportExport/XmlSpreadsheet/DataItem.cs:48-52 | with a null value, preparation also clears an explicitly set text |
| ActivityHelper.Mask | Maximis.Toolkit.Xrm/Activities/ActivityHelper.cs:8-22 | the enum's integer value, 1 to 12 |
| ActivityHelper.MaskInjective | Maximis.Toolkit.Xrm/Activities/ActivityHelper.cs:8-22 | different party types have different values |
| ActivityHelper.PartyAttributesRoundTrip | Maximis.Toolkit.Xrm/Activities/ActivityHelper.cs:52-55 | a party holds exactly partyid and participationtypemask, from which the reference and the type read back |
| ActivityHelper.GetActivityParty | Maximis.Toolkit.Xrm/Activities/ActivityHelper.cs:48-56 | null exactly for a null reference; otherwise a new activityparty record with those two attributes |
| ActivityHelper.Present | Maximis.Toolkit.Xrm/Activities/ActivityHelper.cs:63-67 | exactly the non-null references |
| ActivityHelper.PresentAppend | Maximis.Toolkit.Xrm/Activities/ActivityHelper.cs:63-67 | filtering keeps order across concatenation |
| ActivityHelper.GetActivityPartyArray | Maximis.Toolkit.Xrm/Activities/ActivityHelper.cs:58-69 | null exactly for a null or empty array or when every reference is null; otherwise one new, distinct party per non-null reference, in order |
| ServiceHelper.BuildUrl | Maximis.Toolkit.Xrm/ServiceHelper.cs:120-138 | the address built step by step equals scheme, host, port part and service path |
| ServiceHelper.Timeout | Maximis.Toolkit.Xrm/ServiceHelper.cs:107 | positive: the configured seconds when positive, otherwise ten minutes |
| ServiceHelper.GetOrganizationServiceProxy | Maximis.Toolkit.Xrm/ServiceHelper.cs:83-109 | fails exactly for LiveId; otherwise the organization address and the timeout |
| ServiceHelper.GetDeploymentServiceClient | Maximis.Toolkit.Xrm/ServiceHelper.cs:74-81 | the deployment address and a ten-minute timeout |
| ServiceHelper.UrlScheme | Maximis.Toolkit.Xrm/ServiceHelper.cs:123 | the address starts with https:// exactly when secure, otherwise with http:// |
| ServiceHelper.UrlAuthority | Maximis.Toolkit.Xrm/ServiceHelper.cs:124-125 | up to the first '/', the address is the host followed by ':' and the port's digits exactly when the port is positive; the rest is the service path |
| ServiceHelper.PortPartShape | Maximis.Toolkit.Xrm/ServiceHelper.cs:125 | the port part is empty or ':' followed by digits |
| ServiceHelper.UrlServicePath | Maximis.Toolkit.Xrm/ServiceHelper.cs:126-136 | organization addresses end with the organization path and carry `/{Organization}` exactly for Active Directory; deployment addresses end with the deployment path |
| BasePlugin.Bags | Maximis.Toolkit.Xrm/BasePlugin.cs:171-173 | each entity's attributes, or none for a null entity, in order |
| BasePlugin.FirstHolder | Maximis.Toolkit.Xrm/BasePlugin.cs:171-177 | the first non-null entity that holds the key, or -1 when none does |
| BasePlugin.GetAttributeValue | Maximis.Toolkit.Xrm/BasePlugin.cs:168-179 | fails on an empty list; otherwise the typed value from the first non-null entity holding the key, else the type's default |
| BasePlugin.FirstMatchWins | Maximis.Toolkit.Xrm/BasePlugin.cs:171-178 | entities after the first holder are never consulted; entities before it that lack the key do not matter |
| BasePlugin.GetEntityImage | Maximis.Toolkit.Xrm/BasePlugin.cs:187-195 | fails exactly when errorIfMissing and the image is missing or null; otherwise the image or null |
| BasePlugin.ParameterItems | Maximis.Toolkit.Xrm/BasePlugin.cs:211 | listing the parameters fails with NullReferenceException exactly when one holds null |
| BasePlugin.GetParameter | Maximis.Toolkit.Xrm/BasePlugin.cs:203-217 | fails exactly when errorIfMissing and the key is missing, null or of another type; otherwise the value, or the type's default |
| BasePlugin.ParameterWithoutError | Maximis.Toolkit.Xrm/BasePlugin.cs:203-217 | without errorIfMissing the call always succeeds, with null for object |
| BasePlugin.Allowed | Maximis.Toolkit.Xrm/BasePlugin.cs:241-295 | succeeds with the actual value exactly when it is allowed; otherwise the given error |
| BasePlugin.ValidatePluginEntityType | Maximis.Toolkit.Xrm/BasePlugin.cs:241-249 | the primary entity name exactly when it is allowed; otherwise the error listing the allowed entities and naming the actual one |
| BasePlugin.ActualMode | Maximis.Toolkit.Xrm/BasePlugin.cs:258 | Synchronous exactly when OperationId is empty |
| BasePlugin.ValidatePluginExecutionMode | Maximis.Toolkit.Xrm/BasePlugin.cs:256-264 | the actual mode exactly when it is allowed; otherwise the mode-naming error |
| BasePlugin.ValidatePluginMessage | Maximis.Toolkit.Xrm/BasePlugin.cs:271-279 | the message name exactly when it is allowed; otherwise the error listing the allowed messages and naming the actual one |
| BasePlugin.StageNames | Maximis.Toolkit.Xrm/BasePlugin.cs:291 | one name per stage, in order: the name of that stage's enum value |
| BasePlugin.StageValues | Maximis.Toolkit.Xrm/BasePlugin.cs:13-18 | each stage's integer value |
| BasePlugin.ValidatePluginStage | Maximis.Toolkit.Xrm/BasePlugin.cs:286-295 | the stage exactly when some allowed stage has its value, which is then 10, 20 or 40; otherwise the error listing the allowed stages' names and the actual stage's name or number |
| BasePlugin.PluginExecutionContext.constructor | Maximis.Toolkit.Xrm/BasePlugin.cs:89 | a context with the given parent |
| BasePlugin.GetAncestorContexts | Maximis.Toolkit.Xrm/BasePlugin.cs:86-96 | the parent chain, nearest first, without the context itself |
| BasePlugin.ChainSuffix | Maximis.Toolkit.Xrm/BasePlugin.cs:89-94 | the rest of a chain is the chain of its first member |
| BasePlugin.ChainUnique | Maximis.Toolkit.Xrm/BasePlugin.cs:86-96 | a context has only one ancestor chain |
| BasePlugin.ChainExcludesSelf | Maximis.Toolkit.Xrm/BasePlugin.cs:86-96 | a context is not its own ancestor |
| BaseEntityAction.GetOptionSetValue | Maximis.Toolkit.Xrm/EntityActions/BaseEntityAction.cs:9-13 | 0 for a missing or null option set, else its value; a value of another type fails the cast |
| BaseEntityAction.CompareEntityReferences | Maximis.Toolkit.Xrm/EntityActions/BaseEntityAction.cs:15-20 | false when exactly one side is null; Id equality when both are set; both null throws NullReferenceException |
| BaseEntityAction.CompareIsEquivalence | Maximis.Toolkit.Xrm/EntityActions/BaseEntityAction.cs:19 | on non-null references the comparison is reflexive, symmetric and transitive |
| BaseEntityAction.LogicalNameIgnored | Maximis.Toolkit.Xrm/EntityActions/BaseEntityAction.cs:19 | the logical name plays no part |
| HtmlHelper.ReplaceParaClose | Maximis.Toolkit/Html/HtmlHelper.cs:9-17 | `</p>` in either case becomes the marker; no other character appears |
| HtmlHelper.TagClose | Maximis.Toolkit/Html/HtmlHelper.cs:10 | the first '>' from a position, with no '>' or line feed before it |
| HtmlHelper.TagAtStart | Maximis.Toolkit/Html/HtmlHelper.cs:10 | the lazy `<.+?>` match at the start: '<', at least one character, and '>' |
| HtmlHelper.ReplaceTags | Maximis.Toolkit/Html/HtmlHelper.cs:10-20 | each tag becomes a space; no other character appears |
| HtmlHelper.DropMarkers | Maximis.Toolkit/Html/HtmlHelper.cs:11 | drops exactly the leading run of markers |
| HtmlHelper.ReplaceMarkerRuns | Maximis.Toolkit/Html/HtmlHelper.cs:11-36 | each run of markers becomes the replacement; no marker is left when the replacement holds none |
| HtmlHelper.StripHtml | Maximis.Toolkit/Html/HtmlHelper.cs:13-40 | the text after the fixed sequence of replacements and Trim; no marker; no whitespace at either end; only spaces as whitespace without line breaks |
| HtmlHelper.StrippedTrimmed | Maximis.Toolkit/Html/HtmlHelper.cs:39 | the result never starts or ends with whitespace |
| HtmlHelper.StrippedHasNoMarker | Maximis.Toolkit/Html/HtmlHelper.cs:29-36 | no marker survives, in either mode |
| HtmlHelper.StrippedSingleLine | Maximis.Toolkit/Html/HtmlHelper.cs:23-35 | without line breaks the only whitespace left is the plain space |
| HtmlHelper.TagBecomesSpace | Maximis.Toolkit/Html/HtmlHelper.cs:20 | a tag with a one-line body is replaced by one space |
| HtmlHelper.TextWithoutTagsUnchanged | Maximis.Toolkit/Html/HtmlHelper.cs:20 | text without '>' passes the tag step unchanged |
| HtmlHelper.MarkerRunReplaced | Maximis.Toolkit/Html/HtmlHelper.cs:29-36 | a run of one or more markers becomes exactly one replacement |
| Xrm.Cast | Maximis.Toolkit.Xrm/BasePlugin.cs:175 | null gives the type's default; a value of the requested type, or any value for object, is kept; any other value fails with InvalidCastException |
| Xrm.GetAttributeValueAs | Maximis.Toolkit.Xrm/BasePlugin.cs:175 | a missing key gives the type's default; a present one is cast |
| Xrm.DefaultOf | Maximis.Toolkit.Xrm/BasePlugin.cs:178 | zero for value types, null for reference types; a non-null default has the requested type |
| Wrappers.SingleWhere | Maximis.Toolkit.Xrm/MetadataHelper.cs:33-34 | LINQ SingleOrDefault: no match, the one match, or two matches |

## Left out

- The calls to the organization service, and everything that depends on
  them:
  - CreateOrUpdate, SmartUpdate and RelateEntities in UpdateHelper.cs;
  - GetEntityMetadata and GetPrimaryNameValue, with metadata passed in as a
    map instead;
  - the service-calling BasePlugin helpers: shared variables, the FetchXML
    condition readers, SetPrimaryNameValue, EnsureNotFutureDate and
    GetEntityReferenceName.
- Credentials, the proxies themselves, RenewTokenIfRequired and the network
  calls in ServiceHelper.cs: only the address and timeout are modelled.
- File, zip and XML I/O: ExcelXmlReader's zip walk is modelled only as
  ClassifyEntry and BuildWorksheets, over maps of part contents. The writing
  of the friendly XML is modelled only as PadRow and CellText.
- Culture and format-dependent conversions are parameters:
  - DateTime and Money display;
  - DateTime.FromOADate;
  - ToString of arbitrary objects;
  - the DataItem ISO date format;
  - Guid.TryParse;
  - the local-to-UTC conversion with its daylight-saving rules.
- DisplayStringOptions' DateFormat, LookupFormat and OptionSetFormat, and the
  option-set, lookup, DateTime and Money display cases: they need string
  formatting or a service call.
- AliasedValue equality: the SDK compares objects by reference, and the
  model compares values structurally.
- Dictionary enumeration order is a parameter (`keys`) of
  FetchXml.ExtractRelatedEntities and BasePlugin.GetParameter.
- Null object arguments are not representable, so the model does not
  produce the NullReferenceException they would raise:
  - a null OptionSetValue passed to MetadataHelper.OptionValueToLabel
    (MetadataHelper.cs:34);
  - a null entity passed to XrmExtensions.HasNullAttribute and the other
    entity extensions (ExtensionMethods.cs:33);
  - a null params array passed to BasePlugin.GetAttributeValue
    (BasePlugin.cs:170). Null entities inside the array are modelled.
- ExcelXmlReader.ExcelColumnNameToNumber: does not model 32-bit wrap-around;
  the sum is an unbounded integer, so names of seven or more letters
  overflow in the source but not here.
- TraceProgress.Reporter.IterationComplete: does not model 32-bit
  wrap-around of TotalProcessed and the progress counter.
- Text.ToUpper: upper-cases only ASCII letters. Column names are
  upper-cased culture-invariantly in the source and option labels with the
  current culture; neither rule is modelled for other letters, so both
  compare case-insensitively for ASCII only.
- ImportExport.SortedDistinct: sorts by ordinal character order. The
  culture-aware default string comparer of OrderBy is not modelled.
- HtmlHelper.ReplaceParaClose: RegexOptions.IgnoreCase is modelled for the
  letter 'p' only, which is the only letter in the pattern.
- HtmlHelper.StripHtml: `\s` is taken as the char.IsWhiteSpace set of the
  Text module, and `.` excludes only the line feed, as in .NET.
- Xrm.Cast: the SDK's GetAttributeValue&lt;T&gt; is modelled as a plain cast;
  an OtherType value reports its type name as System.Object.
- ToolkitExtensions.TruncateWithEllipsis: requires maxLength <= 0 or
  maxLength >= 3. For 1 or 2 the source calls Substring with a negative
  length and throws, and the model keeps callers away from that input.
- BusinessClosure.AddWorkingDays: dates are unbounded day numbers. The
  DateTime range (years 1 to 9999) and its overflow exceptions are not
  modelled.
- Time of day: dates are whole day numbers, so the time part a DateTime
  carries through AddWorkingDays, the closure dates and the Contains test of
  IsWorkingDay is not modelled.
- ExcelXmlReader.CellText: the ArgumentException DateTime.FromOADate throws
  for a number outside its range is part of the `formatOADate` parameter and
  is not modelled as a failure.
- BasePlugin.GetAncestorContexts: requires a parent chain that ends. The
  source follows ParentContext with no bound, so on a cyclic chain it would
  never return; the model takes the finite chain as a ghost parameter.
- A null string is modelled as an empty string wherever the source treats
  the two alike (string.IsNullOrEmpty); elsewhere Option is used.
- GetSharedVariable in BasePlugin.cs is left out: it reads the execution
  context's shared-variable collections, which are host plumbing. It casts
  the whole key-value pair rather than its value, so for most T it returns
  default(T).

## Findings

| source | as written | input that shows it | evidently intended | confidence | as-written member | corrected member |
|---|---|---|---|---|---|---|
| Maximis.Toolkit/ExtensionMethods.cs:92-96 | truncates whenever the length exceeds maxLength - 3 | "abcd" with maxLength 4 gives "a...", although the string already fits | truncate only strings longer than maxLength, to exactly maxLength characters ending in "..." | not executed | ToolkitExtensions.TruncateAlteredFittingString | ToolkitExtensions.TruncateToFit |
