# Rate tables from e-mail: a verified model

This project models in Dafny how the mail processor pulls freight rate tables out of an e-mail's
HTML body and proves properties of that model. The modelled code is:

- the table pipeline of `src/utils.py`:
  - `find_tables_positions` locates the top-level `<table>` elements in the serialised document;
  - `replace_tables_with_uuid` and `replace_uuid_with_tables` swap each located table for an id on
    its own line, and swap the ids back;
  - `split_html` cuts a quoted thread at its "Sent/To/Cc/Subject" header blocks (or the Russian
    "Отправлено/Кому/Копия/Тема" ones);
  - `extract_outer_html_tables` and `html_table_to_df` turn the outer tables of the newest message
    into data frames;
  - `dataframe_is_table_rates` and `compare_fields_names` accept frames whose three headers match
    the field aliases;
  - `postprocess_df` and the cell cleaners (`extract_first_number`, `cut_text_before_last_equal`,
    `extract_number_from_entry`, `service_replace_by_service1C`, `remove_false_name_rows`)
    normalise an accepted frame;
  - `format_csv_to_table` renders CSV text as an HTML table;
- `EmailData.rate_tables_processor` in `src/models.py`, which chains these stages over the
  message's fields and clears the result of the whole message when one table cannot be normalised;
- the `SERVICES_KEYWORDS` table built in `src/parameters.py` from `SERVICES1C` and
  `_SERVICES_KEYWORDS`.

There is one module per stage:

| file | module | models |
|---|---|---|
| common.dfy | Common | `Option` and `Try` (a value, or an exception raised) |
| strings.dfy | Strings | the `str` operations the code uses: `find`, `replace`, `split`, `join`, `strip`, `lower`, slicing, `in` |
| spans.dfy | Spans | cutting a text at ordered spans and weaving the pieces back |
| locator.dfy | TableLocator | `find_tables_positions` |
| placeholder.dfy | Placeholders | `replace_tables_with_uuid`, `replace_uuid_with_tables` |
| thread.dfy | ThreadSplit | `split_html`, as a line matcher |
| grid.dfy | Grid | `html_table_to_df`, `extract_outer_html_tables` over an abstract parse tree |
| schema.dfy | Schema | `compare_fields_names`, `dataframe_is_table_rates` |
| cleaners.dfy | Cleaners | the cell cleaners and `postprocess_df` |
| csvtable.dfy | CsvTable | `format_csv_to_table`, and a reader that takes its output apart again |
| parameters.dfy | Parameters | `SERVICES1C`, `_SERVICES_KEYWORDS` and the flattening loop |
| email.dfy | Email | the `EmailData` class and `rate_tables_processor` |

Code that changes state step by step is modelled as methods with loops, proved against the
functions that specify them:

- the locating loop, the id substitution and restore loops, the header-consuming loop of
  `compare_fields_names`, the nested loops of `html_table_to_df` and `format_csv_to_table`, and
  the dictionary-building loop of `src/parameters.py` are methods;
- `EmailData` is a class whose processing method assigns its fields.

Pure code is modelled as functions, with lemmas for its properties.

Some behaviour of the code is easy to misread. The model follows the code:

- Restoring the substituted text gives back the document with every located table on a line of
  its own. The code adds `"\n"` on each side of an id and never removes it. Restoring does not
  return the document itself. With no table at all, the substituted text is `""`.
- Header matching is the code's greedy one. For each field, the first alias present consumes one
  header. The frame is accepted when no header is left. This is not a bijection check: two fields
  may claim headers through overlapping aliases. What is proved is that every header was claimed,
  by at most one claim per field.
- A rate or entry cell without digits gives `None` for that cell. The row is kept. It does not
  make the message's result empty. Only a failing `postprocess_df`, one that raises inside its
  `try`, empties it.
- A cell with exactly one `<p>` gives that paragraph's text, not the stripped flat text. Only
  `<td>` cells are read, so a header row made of `<th>` cells is shorter than the data rows.
- `postprocess_df` assigns to the frame it is given before it builds the filtered frame it
  returns. The frames in `raw_rate_tables` are those objects. After `rate_tables_processor` they
  carry the normalised or renamed labels and the cleaned rate, entry and service columns, up to
  the statement that raised. They are not the frames as extracted.
- `dataframe_is_table_rates` is not guarded by a `try`. A three-column frame with a missing
  (`None`) header label makes `.lower()` raise. The exception leaves `rate_tables_processor`
  after `tables_info`, `replacement`, `restored` and `parts` are set, and before
  `raw_rate_tables` and `rate_tables` change. The model returns this as `raised`.

## Model

| member | source | states |
|---|---|---|
| Strings.Find | src/utils.py:173 | `str.find` from `start`: -1 exactly when the pattern occurs nowhere at or after `start`; otherwise an occurrence at or after `start` with none between `start` and it |
| Strings.ReplaceAbsent | src/utils.py:216 | `str.replace` with a pattern that does not occur leaves the text unchanged |
| Strings.ReplaceWhole | src/utils.py:216 | replacing in a text that is exactly the pattern gives the replacement |
| Strings.ReplaceAcrossNewline | src/utils.py:216 | for a pattern without a newline, replacing in `a + "\n" + b` is replacing in `a` and in `b` separately |
| Strings.Split | src/utils.py:362-363 | `str.split(c)` gives at least one part and no part contains `c` |
| Strings.JoinSplit | src/utils.py:362-374 | joining the parts of a split with the separator gives the text back |
| Strings.SplitJoin | src/utils.py:362-374 | splitting joined non-empty lists of separator-free parts gives the parts back |
| Strings.SplitNoSeparator | src/utils.py:362-363 | a text without the separator splits into itself alone |
| Strings.TrimStart | src/utils.py:370 | what is removed from the front is white space and what is left does not start with white space |
| Strings.TrimEnd | src/utils.py:370 | what is removed from the back is white space and what is left does not end with white space |
| Strings.Strip | src/utils.py:302 | `str.strip()` leaves neither leading nor trailing white space and adds no character |
| Strings.LowerIdempotent | src/utils.py:347 | lower-casing twice is lower-casing once |
| Spans.Rebuild | src/utils.py:198-201 | for ordered spans, the text between the spans interleaved with the spans' texts gives the whole text back |
| TableLocator.FindTablesPositions | src/utils.py:165-183 | the loop's result is the record list of the scan over all tables, and every entry is recorded: `doc[start..end]` with an inclusive `end` is its table, and each entry starts at or after the end of the one before |
| TableLocator.LocateRecorded | src/utils.py:171-181 | after any number of tables the entries are recorded and ordered, and the search start is at or after the last recorded start |
| TableLocator.StepRecorded | src/utils.py:172-181 | one iteration keeps the entries recorded and ordered |
| TableLocator.RecordedAppend | src/utils.py:179-181 | appending a table found at or after the last recorded end keeps the list recorded |
| TableLocator.LocateFromInput | src/utils.py:170-181 | there are at most as many entries as tables, and every entry's table is one of the tables searched for |
| TableLocator.SkipOrRecord | src/utils.py:173-181 | a table not found leaves the state unchanged; a found table moves the search start to where it was found, even when skipped; it is skipped when it starts before the last recorded end and appended otherwise |
| TableLocator.DelimitedSpansDisjoint | src/utils.py:176-181 | when every table starts with `<` and ends with `>`, each recorded table starts strictly after the previous one's end |
| TableLocator.StepDisjoint | src/utils.py:176-181 | one iteration keeps delimited recorded spans strictly apart |
| TableLocator.RepeatedTableNotRecorded | src/utils.py:173-181 | a table serialised the same as the one just recorded is found again at the same place and never recorded |
| Placeholders.ReplaceTablesWithIds | src/utils.py:186-203 | each entry is paired with its id, in order; the replacement is the document with every recorded span replaced by `"\n" + id + "\n"` and the text between spans kept; with no entries it is `""` |
| Placeholders.ReplaceIdsWithTables | src/utils.py:206-217 | the result is the text with each id, in order, replaced everywhere by its table |
| Placeholders.ReplaceInWeave | src/utils.py:216 | replacing a newline-free pattern in pieces woven with newlines replaces it in every piece |
| Placeholders.GapsUntouched | src/utils.py:216 | replacing an id that does not occur in the document leaves every piece of text between tables unchanged |
| Placeholders.RestoreOne | src/utils.py:215-216 | with fresh ids, replacing the j-th id restores exactly the j-th table and touches no other table or id |
| Placeholders.RestorePrefix | src/utils.py:213-216 | after the first k ids are restored, the text is the document's gaps woven with the first k tables and the remaining ids |
| Placeholders.RestoreEncoded | src/utils.py:193-217 | with fresh ids, restoring the substituted text gives the document's gaps woven with the tables, each table on its own line |
| Placeholders.UnwrappedIsDocument | src/utils.py:168-183 | for recorded, strictly disjoint entries, the gaps interleaved with the tables, without the added newlines, are the document |
| Placeholders.LocatedRoundTrip | src/models.py:35-40 | for the located tables and fresh ids, the restored text is the document with each located table put on its own line |
| ThreadSplit.LineEnd | src/utils.py:276-280 | the end of the line at `p` (multiline `$`): the first newline at or after `p`, or the end of the text |
| ThreadSplit.SplitHtml | src/utils.py:275-282 | there is one more part than there are header blocks |
| ThreadSplit.ScanOrdered | src/utils.py:280 | the blocks the scan cuts out are ordered and each starts at a line start at or after the scan start, where it is a header block |
| ThreadSplit.BlocksAreHeaderBlocks | src/utils.py:276-280 | every block cut out starts at a line start and is a header block there, and the blocks do not overlap |
| ThreadSplit.SplitRebuilds | src/utils.py:280 | the parts interleaved with the blocks rebuild the text, and there is one more part than blocks |
| ThreadSplit.FirstPart | src/utils.py:280 | when the first header block starts at line `q`, there are at least two parts and the first is the text before `q` |
| ThreadSplit.NoBlockNoSplit | src/utils.py:280 | a text with no header block splits into itself alone |
| ThreadSplit.MatchLinesLower | src/utils.py:276-280 | matching one locale's marker lines ignores case |
| ThreadSplit.FirstMatchLower | src/utils.py:276-280 | matching either alternative ignores case |
| ThreadSplit.BlocksIgnoreCase | src/utils.py:280 | the blocks of the lower-cased text are the blocks of the text |
| ThreadSplit.NoColonNoMatch | src/utils.py:276-278 | markers carry their colons: no alternative matches in a text without `:` |
| ThreadSplit.NoColonNoSplit | src/utils.py:276-280 | a text without `:` is never split |
| Grid.CellTextParagraphs | src/utils.py:231-236 | for a cell with one or more newline-free paragraphs, splitting its text on newlines gives the paragraphs back |
| Grid.TextRows | src/utils.py:226-240 | one row per `<tr>` and one entry per `<td>`, and each entry is that cell's text |
| Grid.Width | src/utils.py:243 | the frame width is the length of the longest row, 0 for no row |
| Grid.UnpadPad | src/utils.py:243 | padding a row with `None` to the frame width and dropping the padding gives the row back |
| Grid.ToFrame | src/utils.py:243-246 | raises exactly when there is no row; otherwise there is one data row fewer than rows |
| Grid.FrameRoundTrip | src/utils.py:243-246 | labels and data rows are padded to the width of the widest row, and reading the frame back gives the rows |
| Grid.HtmlTableToDf | src/utils.py:220-246 | the loops build the frame of the table's cell texts |
| Grid.OuterTables | src/utils.py:260-263 | a lone table is kept exactly when it has no table ancestor |
| Grid.OuterTablesMembers | src/utils.py:260-263 | exactly the tables without a table ancestor are kept |
| Grid.OuterTablesAppend | src/utils.py:260-263 | keeping the outer tables works block by block, so document order and repeated tables are kept |
| Grid.KeepOuterTables | src/utils.py:260-263 | the loop keeps the outer tables in document order |
| Grid.FramesOf | src/utils.py:266-270 | raises exactly when some outer table has no row; otherwise one frame per table, in order |
| Grid.OuterFrames | src/utils.py:249-270 | an outer table without rows empties the whole result; otherwise there is one frame per outer table, in order |
| Grid.ExtractOuterHtmlTables | src/utils.py:249-270 | the method returns the frames of the outer tables, or none for empty content or a failing table |
| Schema.Normalize | src/utils.py:302 | a normalised header neither starts nor ends with white space and holds no capital letter |
| Schema.NormalizeIgnoresCase | src/utils.py:302-305 | a header and its lower-cased form normalise alike, so headers are compared without regard to case |
| Schema.RemoveFirst | src/utils.py:307 | `list.remove` takes away exactly one occurrence |
| Schema.FirstIn | src/utils.py:304-308 | the first alias, in order, that is among the headers, or none when no alias is |
| Schema.FirstInAt | src/utils.py:304-308 | the alias at `j` is taken when it is present and no earlier alias is |
| Schema.Remaining | src/utils.py:303-309 | each field consumes at most one header |
| Schema.TakeFirstAlias | src/utils.py:304-308 | the inner loop removes the first present alias once, or nothing |
| Schema.CompareFieldsNames | src/utils.py:301-309 | the result is true exactly when the fields consume every normalised header |
| Schema.ClaimsAccount | src/utils.py:303-309 | the headers left and the headers claimed together are the headers, and there is at most one claim per field |
| Schema.ClaimsAreAliases | src/utils.py:305-307 | every claimed header is a normalised alias |
| Schema.AcceptsIffAllClaimed | src/utils.py:309 | accepted exactly when the claimed headers are all the headers |
| Schema.TooManyHeaders | src/utils.py:303-309 | more headers than fields are never accepted |
| Schema.IsRateTable | src/utils.py:287-298 | false unless there are three columns; raises exactly when there are three columns and one has no label; with three labelled columns, true exactly when `compare_fields_names` accepts the labels |
| Schema.RateTableHeaders | src/utils.py:294-298 | a frame is a rate table exactly when it has three labelled columns whose normalised headers are all claimed by the fields; then there are at least three fields |
| Cleaners.RemoveBlanks | src/utils.py:329 | exactly the characters that are not non-newline white space are kept |
| Cleaners.RemoveBlanksAppend | src/utils.py:329 | removing blanks distributes over concatenation |
| Cleaners.FirstDigit | src/utils.py:328-330 | the position of the first digit, none exactly when there is no digit |
| Cleaners.DigitsRun | src/utils.py:328 | `\d+` takes the whole run of digits |
| Cleaners.ReadNumberNone | src/utils.py:330-332 | no number exactly when there is no digit |
| Cleaners.NumberAtFound | src/utils.py:328 | the number read at a digit is well formed, written there, and the longest one there |
| Cleaners.ReadNumberFound | src/utils.py:328-332 | the number read starts at the first digit of the text |
| Cleaners.ExtractFirstNumberNone | src/utils.py:327-332 | `extract_first_number` gives `None` exactly when the text has no digit |
| Cleaners.RenderRead | src/utils.py:327-332 | reading a written decimal gives it back |
| Cleaners.ReadNumberSkips | src/utils.py:328 | text without digits in front of a number does not change what is read |
| Cleaners.CutTextBeforeLastEqual | src/utils.py:335-337 | the cut text is a suffix that starts with `=` and holds no other `=` |
| Cleaners.CutIsUnique | src/utils.py:335-337 | the cut of `a + "=" + b`, with no `=` in `b`, is `"=" + b` |
| Cleaners.EntryAfterLastEqual | src/utils.py:340-343 | an entry is read only from what follows its last `=` |
| Cleaners.FirstKeyword | src/utils.py:348-351 | the service of the first keyword, in table order, found in the text, or `''` when none is |
| Cleaners.ServiceIgnoresCase | src/utils.py:346-347 | the service lookup ignores case |
| Cleaners.RemoveFalseNameRows | src/utils.py:354-356 | exactly the rows with a non-empty service are kept |
| Cleaners.RemoveFalseNameRowsAppend | src/utils.py:356 | the kept rows stay in their order |
| Cleaners.ColumnOf | src/utils.py:317-319 | a column is selected exactly when its name occurs once, and it is that column |
| Cleaners.CanonicalNamesOutcome | src/utils.py:314-315 | renaming fails exactly when a label is missing or its normalised form is no known alias; otherwise each column gets its alias's field |
| Cleaners.UsedColumns | src/utils.py:317-319 | the three columns are found exactly when each field names exactly one column, and they are the service, entry and rate columns in that order |
| Cleaners.PostprocessDf | src/utils.py:312-324 | the rows kept have a non-empty service and are at most the data rows |
| Cleaners.PostprocessFails | src/utils.py:312-324 | `None` exactly when renaming fails, a field does not name exactly one column, or a used cell is missing |
| Cleaners.PostprocessRows | src/utils.py:312-321 | on success, the columns read are those whose labels rename to the service, the entry and the rate; the result lists, in data-row order, the cleaned row of exactly the data rows whose cleaned service is not empty |
| Cleaners.ServiceRowsMeaning | src/utils.py:356 | the positions listed are increasing and are exactly those of the rows with a service |
| Cleaners.FilterPicksServiceRows | src/utils.py:356 | filtering gives the rows at those positions, in order |
| Cleaners.CleanedInOrder | src/utils.py:317-321 | the rows kept from the cleaned data rows are, in order, exactly those with a service |
| Cleaners.CleanRowsKept | src/utils.py:320 | every kept row is the cleaning of a data row, and every data row with a service is kept |
| Cleaners.ApplyField | src/utils.py:317-319 | `df[name] = df[name].apply(f)` succeeds exactly when one column is named so and all its cells are there; it then replaces that column and no other |
| Cleaners.PostprocessInPlace | src/utils.py:312-319 | the frame `postprocess_df` is given keeps its number of labels and columns |
| Cleaners.InPlaceLabels | src/utils.py:314-315 | the frame given to `postprocess_df` is left untouched when a label is missing, with normalised labels when one is unknown, and with its labels renamed to their fields otherwise |
| Cleaners.InPlaceRenamed | src/utils.py:314-315 | once every label is known, the labels are renamed whatever the later statements do |
| Cleaners.InPlaceOthersKept | src/utils.py:312-319 | no column of the frame changes except those left labelled as the service, the entry or the rate |
| Cleaners.InPlaceAgrees | src/utils.py:312-321 | after a successful `postprocess_df`, the frame it was given carries the field labels, and its service, entry and rate columns hold, row by row, the cleaned rows the result is filtered from |
| Cleaners.InPlaceColumns | src/utils.py:317-319 | after a successful `postprocess_df`, each of the three columns holds what its `apply` computed |
| Cleaners.FieldsApplied | src/utils.py:317-319 | the three `apply` statements succeed when each field names one complete column, and each result stays in its own column |
| Cleaners.AppliedRows | src/utils.py:317-319 | row by row, the three applied columns are the parts of the cleaned rows |
| CsvTable.Rows | src/utils.py:362-363 | at least one row and at least one cell per row |
| CsvTable.FormatCsvToTable | src/utils.py:361-374 | the output is the table line, one `<tr>` block per row with `th` cells for row 0 and `td` cells after it, and the closing line, joined by newlines |
| CsvTable.TableLines | src/utils.py:365-372 | the outer loop builds the opening line, the lines of every row and the closing line |
| CsvTable.AppendRow | src/utils.py:367-371 | the inner loop appends `<tr>`, one line per stripped cell, and `</tr>` |
| CsvTable.TableRoundTrip | src/utils.py:361-374 | splitting the output on newlines and reading it back gives the stripped rows of the input |
| CsvTable.LinesHaveNoNewline | src/utils.py:362-372 | no output line contains a newline |
| CsvTable.EmptyCsv | src/utils.py:361-374 | empty input gives one row with one empty `th` cell |
| Parameters.Store | src/parameters.py:43 | assignment keeps keys distinct; a present key keeps its place and a new key goes last |
| Parameters.StoreEntries | src/parameters.py:43 | after assignment, the entries are the new pair and the old ones with other keys |
| Parameters.Assign | src/parameters.py:40-43 | distinct keys, at most one per assignment |
| Parameters.StoreKeywords | src/parameters.py:42-43 | the inner loop assigns the lower-cased keywords of one service, in order |
| Parameters.FlattenKeywords | src/parameters.py:40-43 | the nested loop assigns every listed keyword, in order |
| Parameters.AssignKeys | src/parameters.py:41-43 | the keys are exactly the keys assigned |
| Parameters.AssignLast | src/parameters.py:43 | every entry holds the last value assigned to its key |
| Parameters.AssignOrder | src/parameters.py:41-43 | keys stand in the order of their first assignment |
| Parameters.PairsListed | src/parameters.py:41-43 | the assignments are exactly the lower-cased keywords paired with the service they are listed under |
| Parameters.KeywordTable | src/parameters.py:40-43 | every listed keyword, lower-cased, is a key; every entry is a listed pair whose value is the last assigned; keys are in first-assignment order; there are at most as many keys as keywords |
| Parameters.ListingNames | src/parameters.py:26-38 | the services of `_SERVICES_KEYWORDS` are `SERVICES1C`, in order |
| Parameters.ValuesAreServices | src/parameters.py:26-43 | every value of `SERVICES_KEYWORDS` is a name of `SERVICES1C` |
| Email.SelectedMeaning | src/models.py:47 | the filter raises exactly when some frame's check raises; otherwise it keeps exactly the frames that are rate tables |
| Email.SelectedAppend | src/models.py:47 | the filter keeps document order |
| Email.PostprocessAll | src/models.py:48 | one post-processed entry per raw table |
| Email.FailClosed | src/models.py:51-53 | a failed entry empties the result; otherwise it is unchanged |
| Email.FramesRectangular | src/utils.py:243 | every frame read from a message has all its rows as wide as its labels |
| Email.SelectedRectangular | src/models.py:46-47 | every rate table selected from a message's frames is a rectangle |
| Email.RateTablesOutcome | src/models.py:48-53 | the result is empty, or one successfully normalised entry per raw table in order; it is empty exactly when there is no raw table or one fails |
| Email.EmailData.constructor | src/models.py:13-29 | a new message has no content and empty processing results |
| Email.EmailData.RateTablesProcessor | src/models.py:31-53 | the fields are set from the located tables, the substitution, the restore and the split; only the first part, the newest message, is searched; the raw tables are the accepted frames, in order, each as `postprocess_df` left it; the rate tables are their normalisation, cleared when one fails; nothing else changes |
| Email.EmailData.SeparateTables | src/models.py:34-42 | the tables are located and substituted, the restore and the split are stored, and there is always at least one part |
| Email.EmailData.ProcessNewest | src/models.py:43-53 | the newest part is restored and searched; an exception in the check leaves both tables unchanged; otherwise the raw tables are the accepted frames, each as `postprocess_df` left it, and the rate tables are fail-closed |
| Email.EmailData.KeepRateTables | src/models.py:47-53 | the raw tables are the given frames as `postprocess_df` leaves them, and the rate tables are their cleaned rows, cleared when one fails |
| Email.EmailData.PostprocessRawTables | src/models.py:48 | each raw table is cleaned in turn and left as `postprocess_df` leaves it; the results come one per table, in order |

## Left out

- HTML parsing and serialisation are BeautifulSoup's. The model takes a parse function from text to a
  tree: the serialised document and its tables in document order, each with a nested flag and the
  `<td>` cells of its rows. `html_table_to_df` re-parses `str(table)`; the model reads the table node
  itself, which assumes the re-parse gives the same table. The `_soup` field is not kept.
- `uuid4()` is a parameter `newId`. The restore lemmas assume the ids are fresh: non-empty, free of
  newlines, and found in neither the document, any table, nor another id.
- `float()` is not modelled. A number is its decimal lexeme: the integer digits and the fraction
  digits.
- `str.lower()` and `re.IGNORECASE` fold ASCII, Latin-1 and Cyrillic capitals only. `\d` matches
  the ASCII digits only, not every Unicode decimal digit.
- `FIELDS_ALIAS` and `FIELDS_ALIAS_REVERSED` are not defined in the code shown. They are
  parameters. The keyword dictionary reaches `postprocess_df` as a parameter too; its construction
  is modelled in `Parameters`.
- The dictionaries of `tables_info` gain their `_id` key in place. The model returns a new list of
  (entry, id) pairs, so the aliasing between the caller's list and the stored one is not captured.
- `html` starts as `None`; the model starts it as the empty string. The export fields
  `rate_tables_csv` and `rate_tables_xml`, `rate_tables_export` and the `sender` setter
  (`parseaddr`) are file I/O and a foreign call, and are not modelled.
- The logger and the `print` calls are output only and are not modelled. An exception that leaves
  `rate_tables_processor` is the method's `raised` result. The exceptions caught inside
  `extract_outer_html_tables` and `postprocess_df` are their empty and `None` results.
- The mail client (`connect_to_imap`, `get_unseen_messages`, `send_email`), the decoding
  wrappers, the configuration loading and the drivers are I/O and are not modelled.
- Cleaners.PostprocessDf: its own contract only bounds the rows. The full outcome is stated by
  `PostprocessFails`, `PostprocessRows` and `CleanRowsKept`.
- Cleaners.PostprocessInPlace: its own contract only keeps the number of labels and columns. What
  the frame holds afterwards is stated by `InPlaceLabels`, `InPlaceOthersKept`, `InPlaceAgrees`
  and `InPlaceColumns`. A failing `apply` leaves its column as it was. `df[c] = df[c].apply(f)`
  assigns only after `apply` returns.
- Email.Selected: its own contract only bounds the length. Its meaning is `SelectedMeaning` and
  `SelectedAppend`.
- Grid.CellText: its own contract covers only the cell without paragraphs. The paragraph cases are
  `CellTextParagraphs`.
- Strings.Strip: its own contract does not say the result is the longest such middle part. That
  is stated by `TrimStart` and `TrimEnd`, of which it is the composition.
