# AnSRS item lifecycle, modelled in Dafny

AnSRS is a command-line spaced-repetition tool. Its items live in four stores:

- the **item table** (`id -> Item`);
- the **archive** table, with the same shape;
- the **WorkingSet**, a file-backed set of the ids queued for the current session;
- the **CompletedSet**, a file-backed map from id to a staged completion: an optional pool override and a recall date.

The commands move ids between these stores through boolean-returning store calls, with hand-written compensation when a later step fails. The commands are add, delete, recall, complete, commit, rollback, import and archive. Around them sit a recall scheduler (pool weights, days since the last recall, top-N from a priority queue) and a CSV importer.

The model has one Dafny module per source file:

| module | file | source |
|---|---|---|
| `Basics` | basics.dfy | shared types (`Item`, `Pool`, `Date`, exit codes), Java `int`, and the `String` operations used |
| `Decimal` | decimal.dfy | `String.valueOf(int)` and `Integer.parseInt` |
| `Dates` | dates.dfy | `LocalDate` day arithmetic, `toString` and `parse` (ISO 8601 calendar dates `YYYY-MM-DD`) |
| `Tables` | archive_manager.dfy | `ArchiveManager`, whose contract the item table shares |
| `WorkingSets` | working_set.dfy | `WorkingSet` |
| `CompletedSets` | completed_set.dfy | `CompletedSet` |
| `Scheduling` | recall_service.dfy | `RecallService` |
| `CsvImport` | csv_importer.dfy | `CSVImporter` |
| one module per command | add_command.dfy, delete_command.dfy, … | the command classes |

How the pieces are modelled:

- **Stores.** Each store that the source updates in place is a class. A table is a `Table` holding `rows: map<int, Item>`. The two sets hold their in-memory state plus `file: seq<string>`, the backing file line by line. The sets' invariant `Valid()` says that the file parses back to exactly the in-memory state. Every mutating call keeps it, so the serialise/parse round trip is proved, not assumed.
- **Outcomes.** Every SQL statement that can fail takes a success flag. A loop that issues one statement per id takes a function `int -> bool` instead, so every compensation branch is reachable.
- **Exit codes.** Commands return `Ok` (exit 0), `Fail` (exit 1, including an uncaught exception) or `Rejected` (exit 2, picocli's `ParameterException`).
- **Today.** "Today" is a parameter.
- **Loops.** Loops stay loops: a `while` with invariants, proved against a recursive specification function.

## Model

| member | source | states |
|---|---|---|
| Basics.Wrap32 | src/main/java/ansrs/cli/CommitCommand.java:49 | Java `int` addition: the result is a 32-bit value congruent to the exact sum, and equal to it when that is in range |
| Basics.ListIds | src/main/java/ansrs/cli/CommitCommand.java:35 | `keySet().stream().toList()` lists every id of the set exactly once |
| Basics.PoolValueOf | src/main/java/ansrs/data/Item.java:13 | `Pool.valueOf` accepts exactly the names H, M and L, and returns the pool of that name |
| Basics.ParsePool | src/main/java/ansrs/cli/AddCommand.java:66-70 | `Pool.valueOf(s.toUpperCase())` succeeds exactly for h, H, m, M, l and L |
| Basics.TrimIdempotent | src/main/java/ansrs/service/CSVImporter.java:91 | trimming a trimmed string changes nothing |
| Basics.TrimShape | src/main/java/ansrs/set/CompletedSet.java:50 | `trim` leaves no character at or below a space at either end, and keeps only characters of its input |
| Basics.RemoveChar | src/main/java/ansrs/service/CSVImporter.java:91 | `replace(c, "")` leaves no `c`, is no longer than its input, and keeps only characters of its input |
| Basics.RemoveAbsentChar | src/main/java/ansrs/service/CSVImporter.java:91 | removing a character the string lacks leaves the string unchanged |
| Basics.SplitOnJoin | src/main/java/ansrs/set/CompletedSet.java:52 | splitting at the first separator gives the separator-free head, then the pieces of the rest |
| Basics.SplitThree | src/main/java/ansrs/set/CompletedSet.java:52-53 | `split(" ")` of three non-empty, space-free tokens joined by single spaces gives back exactly those three tokens |
| Decimal.ShowNat | src/main/java/dev/sai/srs/set/WorkingSet.java:93 | the decimal text of a natural number is at least one digit, and has no leading zero |
| Decimal.ParseInt | src/main/java/dev/sai/srs/set/WorkingSet.java:47 | `Integer.parseInt` accepts only an optional sign and digits whose value fits in 32 bits |
| Decimal.ParseShowInt | src/main/java/dev/sai/srs/set/WorkingSet.java:46-47 | every 32-bit value written by `String.valueOf` is parsed back to itself |
| Decimal.ShowIntTrimmed | src/main/java/dev/sai/srs/set/WorkingSet.java:46 | a written number has no blank at either end and no space inside, so `trim` and `split(" ")` keep it whole |
| Dates.DaysInMonth | src/main/java/ansrs/set/CompletedSet.java:48 | a month has 28 to 31 days |
| Dates.LeapYearStep | src/main/java/ansrs/service/RecallService.java:45 | the leap-year count below y + 1 is the count below y, plus one if y is a Gregorian leap year |
| Dates.YearLength | src/main/java/ansrs/service/RecallService.java:45 | a year has 366 days if it is a leap year and 365 otherwise |
| Dates.NextDayIsOneLater | src/main/java/ansrs/service/RecallService.java:45 | the day count behind `DAYS.between` is consistent: the calendar day after a valid date is valid and exactly one day later |
| Dates.ParseDate | src/main/java/ansrs/set/CompletedSet.java:48 | `LocalDate.parse` yields only valid calendar dates |
| Dates.ParseFormatDate | src/main/java/ansrs/set/CompletedSet.java:73 | every date written with `toString` is parsed back unchanged |
| Dates.FormatDateShape | src/main/java/ansrs/set/CompletedSet.java:81-82 | a written date is ten characters with no space, starting and ending in a digit |
| Tables.UpsertAllLookup | src/main/java/ansrs/db/ArchiveManager.java:108-139 | after a MERGE batch, a row exists iff it existed or was merged; it holds the last merged item for its id, or else the old row |
| Tables.UpdateAllLookup | src/main/java/ansrs/db/ArchiveManager.java:162-195 | an UPDATE batch keeps the set of ids; a row holds the last item given for its id, and ids without a row are skipped |
| Tables.InsertAllFresh | src/main/java/ansrs/db/ArchiveManager.java:73-106 | an INSERT batch goes through iff its ids are distinct and not yet in the table, and then it has the MERGE's effect |
| Tables.UpsertAllKeyed | src/main/java/ansrs/db/ArchiveManager.java:108-139 | a MERGE batch keeps every row under its own id |
| Tables.UpdateAllKeyed | src/main/java/ansrs/db/ArchiveManager.java:162-195 | an UPDATE batch keeps every row under its own id |
| Tables.ContainsFoundIgnoringCase | src/main/java/ansrs/db/ArchiveManager.java:298-301 | a name that contains the query literally matches it, whatever the case of either side |
| Tables.MatchingIds | src/main/java/ansrs/db/ArchiveManager.java:299 | the ids selected are exactly the rows whose lower-cased name contains the lower-cased query |
| Tables.ListRows | src/main/java/ansrs/db/ArchiveManager.java:217-237 | the result loop lists exactly the requested rows, each once, as stored |
| Tables.StageInserts | src/main/java/ansrs/db/ArchiveManager.java:80-89 | the batch loop of inserts computes the all-or-nothing insert of the list in order |
| Tables.StageUpserts | src/main/java/ansrs/db/ArchiveManager.java:115-124 | the batch loop of merges computes the merge of the list in order |
| Tables.StageUpdates | src/main/java/ansrs/db/ArchiveManager.java:162-195 | the batch loop of updates computes the update of the list in order |
| Tables.Table.Open | src/main/java/ansrs/db/ArchiveManager.java:16-29 | opening a table exposes the rows the database holds, each under its own id |
| Tables.Table.InsertItem | src/main/java/ansrs/db/ArchiveManager.java:54-71 | true iff the statement succeeds and the id is free; success adds exactly that row, and failure changes nothing |
| Tables.Table.InsertItemsBatch | src/main/java/ansrs/db/ArchiveManager.java:73-106 | all or nothing: commits iff the statement succeeds and the batch is fresh; a duplicate id is reported apart (the source throws) |
| Tables.Table.UpsertItemsBatch | src/main/java/ansrs/db/ArchiveManager.java:108-139 | all or nothing: on success every item's row is created or replaced |
| Tables.Table.UpdateItem | src/main/java/ansrs/db/ArchiveManager.java:141-160 | on success the id's row is the item, created when absent; on failure nothing changes |
| Tables.Table.UpdateItemsBatch | src/main/java/ansrs/db/ArchiveManager.java:162-195 | all or nothing: on success rows with a listed id are replaced and no row is created |
| Tables.Table.GetItemById | src/main/java/ansrs/db/ArchiveManager.java:198-215 | finds the row iff the id is stored, and returns that row; a failed query throws instead, which its callers model as exit 1 |
| Tables.Table.GetAllItems | src/main/java/ansrs/db/ArchiveManager.java:217-237 | empty iff the query fails; otherwise every row exactly once |
| Tables.Table.GetAllItemsIds | src/main/java/ansrs/db/ArchiveManager.java:239-251 | empty iff the query fails; otherwise exactly the stored ids |
| Tables.Table.GetItemsFromList | src/main/java/ansrs/db/ArchiveManager.java:253-275 | empty for an empty list or a failed query; otherwise exactly the rows whose id is listed, each once |
| Tables.Table.DeleteItemsById | src/main/java/ansrs/db/ArchiveManager.java:277-285 | true iff exactly one row went away; the id has no row afterwards when the statement ran |
| Tables.Table.Contains | src/main/java/ansrs/db/ArchiveManager.java:287-296 | true iff the query succeeds and the row exists |
| Tables.Table.SearchItemsByName | src/main/java/ansrs/db/ArchiveManager.java:298-319 | empty iff the query fails; otherwise exactly the rows whose name contains the query ignoring case, each once |
| Tables.Table.ClearDatabase | src/main/java/ansrs/db/ArchiveManager.java:321-328 | on success the table is empty; otherwise unchanged |
| WorkingSets.ReadIdLine | src/main/java/dev/sai/srs/set/WorkingSet.java:46-47 | a line is skipped iff it is blank after `trim`; any id read fits in 32 bits |
| WorkingSets.IdLinesSnoc | src/main/java/dev/sai/srs/set/WorkingSet.java:92-95 | writing one more id appends exactly its line |
| WorkingSets.ReadShownId | src/main/java/dev/sai/srs/set/WorkingSet.java:46-47 | an id line written by `reloadSet` is read back as that id |
| WorkingSets.CollectShownIds | src/main/java/dev/sai/srs/set/WorkingSet.java:45-48 | the id lines written for a list of ids are read back as the set of those ids |
| WorkingSets.LoadSerialisedWorkingSet | src/main/java/dev/sai/srs/set/WorkingSet.java:86-99 | round trip: the file `reloadSet` writes is read by `loadSet` as the same date and id set |
| WorkingSets.CollectIdsFailureSticks | src/main/java/dev/sai/srs/set/WorkingSet.java:47 | one unparsable id line fails the whole load |
| WorkingSets.CollectSkipsBlank | src/main/java/dev/sai/srs/set/WorkingSet.java:46-47 | a blank line among the id lines is skipped |
| WorkingSets.BlankIdLineSkipped | src/main/java/dev/sai/srs/set/WorkingSet.java:45-47 | inserting a blank line anywhere after line 2 loads the same set |
| WorkingSets.CountLineIgnored | src/main/java/dev/sai/srs/set/WorkingSet.java:43-45 | the count on line 2 is never read: any text there loads the same |
| WorkingSets.CollectIdsStep | src/main/java/dev/sai/srs/set/WorkingSet.java:45-48 | one more line fails the load, skips, or adds its id to the set |
| WorkingSets.ReadIds | src/main/java/dev/sai/srs/set/WorkingSet.java:45-48 | the `loadSet` loop computes the set of ids of the lines, or fails at a bad line |
| WorkingSets.WriteIds | src/main/java/dev/sai/srs/set/WorkingSet.java:92-95 | the `reloadSet` loop writes one line per id, each id once |
| WorkingSets.WorkingSet.Create | src/main/java/dev/sai/srs/set/WorkingSet.java:28-38 | a new set is empty and dated today, with the file `date`, `0` |
| WorkingSets.WorkingSet.LoadSet | src/main/java/dev/sai/srs/set/WorkingSet.java:40-52 | loads iff the file has two lines, a date first and only valid id lines; the state is then what the file holds |
| WorkingSets.WorkingSet.ReloadSet | src/main/java/dev/sai/srs/set/WorkingSet.java:86-99 | the file becomes the date, the count and one line per id, and reads back as the state |
| WorkingSets.WorkingSet.FillSet | src/main/java/dev/sai/srs/set/WorkingSet.java:59-63 | the set becomes the old set united with the argument; returns true |
| WorkingSets.WorkingSet.ClearSet | src/main/java/dev/sai/srs/set/WorkingSet.java:65-69 | the set becomes empty; returns true |
| WorkingSets.WorkingSet.AddItem | src/main/java/dev/sai/srs/set/WorkingSet.java:71-75 | the id is added, idempotently; returns true |
| WorkingSets.WorkingSet.RemoveItem | src/main/java/dev/sai/srs/set/WorkingSet.java:77-84 | true iff the id was present; only that id goes, and the file is left alone when it was absent |
| WorkingSets.WorkingSet.SetSetDate | src/main/java/dev/sai/srs/set/WorkingSet.java:115-118 | only the date changes, and the file is rewritten |
| CompletedSets.ParsePoolToken | src/main/java/ansrs/set/CompletedSet.java:57 | exactly `null` means no override; other tokens are pool names in any case |
| CompletedSets.ParsePoolTokenOfPoolToken | src/main/java/ansrs/set/CompletedSet.java:57 | every written pool column, `null` included, reads back as the same override |
| CompletedSets.ParseEntry | src/main/java/ansrs/set/CompletedSet.java:52-63 | an accepted entry has a 32-bit id and a valid date |
| CompletedSets.ParseEncodeEntry | src/main/java/ansrs/set/CompletedSet.java:79-82 | every entry line `reloadItem` writes is unchanged by `trim` and reads back as the same entry |
| CompletedSets.ReadEntryLine | src/main/java/ansrs/set/CompletedSet.java:50-51 | a line is skipped iff it is blank after `trim`; an entry read has a 32-bit id and a valid date |
| CompletedSets.ReadEncodedEntry | src/main/java/ansrs/set/CompletedSet.java:50-58 | a written entry line is read back by the load loop as that entry |
| CompletedSets.CollectEntriesFailureSticks | src/main/java/ansrs/set/CompletedSet.java:53-62 | one malformed entry line fails the whole load |
| CompletedSets.EntryLinesSnoc | src/main/java/ansrs/set/CompletedSet.java:77-83 | writing one more entry appends exactly its line |
| CompletedSets.CollectEncodedEntries | src/main/java/ansrs/set/CompletedSet.java:49-65 | entry lines written for a list of ids read back as the map restricted to those ids |
| CompletedSets.LoadOfParts | src/main/java/ansrs/set/CompletedSet.java:47-48 | a date line, any count line and entry lines load as the date and the entries |
| CompletedSets.LoadSerialisedCompletedSet | src/main/java/ansrs/set/CompletedSet.java:71-88 | round trip: the file `reloadItem` writes is read by `loadSet` as the same date and entries, null overrides included |
| CompletedSets.LaterEntryWins | src/main/java/ansrs/set/CompletedSet.java:55 | an entry line for an id already read replaces the earlier entry (`HashMap.put`) |
| CompletedSets.CollectEntriesStep | src/main/java/ansrs/set/CompletedSet.java:49-65 | one more line fails the load, skips, or puts its entry |
| CompletedSets.ReadEntries | src/main/java/ansrs/set/CompletedSet.java:49-65 | the `loadSet` loop computes the entries of the lines, or fails at a malformed one |
| CompletedSets.WriteEntries | src/main/java/ansrs/set/CompletedSet.java:77-84 | the `reloadItem` loop writes one line per entry, each id once |
| CompletedSets.CompletedSet.Create | src/main/java/ansrs/set/CompletedSet.java:32-42 | a new set is empty and dated today, with the file `date`, `0` |
| CompletedSets.CompletedSet.LoadSet | src/main/java/ansrs/set/CompletedSet.java:44-69 | loads iff the file has two lines, a date first and only well-formed entry lines; the state is then what the file holds |
| CompletedSets.CompletedSet.ReloadItem | src/main/java/ansrs/set/CompletedSet.java:71-88 | the file becomes the date, the count and one line per entry, and reads back as the state |
| CompletedSets.CompletedSet.AddItem | src/main/java/ansrs/set/CompletedSet.java:100-108 | true iff the id was not staged; then exactly `id -> (pool, date)` is added, null pool included; otherwise nothing changes (first writer wins) |
| CompletedSets.CompletedSet.AddItemToday | src/main/java/ansrs/set/CompletedSet.java:90-98 | the same, with today's date |
| CompletedSets.CompletedSet.RemoveItem | src/main/java/ansrs/set/CompletedSet.java:110-115 | true iff the id was staged; only that entry goes, and the file is left alone when it was absent |
| CompletedSets.CompletedSet.ContainsItem | src/main/java/ansrs/set/CompletedSet.java:117-119 | true iff the id is staged |
| CompletedSets.CompletedSet.ClearSet | src/main/java/ansrs/set/CompletedSet.java:121-125 | the map becomes empty; returns true |
| CompletedSets.CompletedSet.SetSetDate | src/main/java/ansrs/set/CompletedSet.java:139-142 | only the date changes, and the file is rewritten |
| Scheduling.Weight | src/main/java/ansrs/service/RecallService.java:13 | the pool weight is 3 for H, 2 for M and 1 for L |
| Scheduling.DaysSince | src/main/java/ansrs/service/RecallService.java:45 | `max(1, DAYS.between(lastRecall, date) + 1)`: always at least 1 |
| Scheduling.Score | src/main/java/ansrs/service/RecallService.java:46 | the rating of positive factors is positive |
| Scheduling.DaysSinceSameDay | src/main/java/ansrs/service/RecallService.java:45 | an item recalled on the reference date counts one day |
| Scheduling.DaysSinceNextDay | src/main/java/ansrs/service/RecallService.java:45 | moving the reference date on by one day adds one day to an item recalled on or before it |
| Scheduling.ScoreFallsWithDenominator | src/main/java/ansrs/service/RecallService.java:46 | a larger `totalRecalls + gamma` gives a strictly smaller rating |
| Scheduling.ScoreRisesWithWeight | src/main/java/ansrs/service/RecallService.java:46 | a larger pool weight gives a strictly larger rating |
| Scheduling.RatingFallsWithRecalls | src/main/java/ansrs/service/RecallService.java:44-48 | with pool and last recall fixed, more recalls rate strictly lower |
| Scheduling.RatingRisesWithPool | src/main/java/ansrs/service/RecallService.java:44-48 | with last recall and count fixed, a heavier pool rates strictly higher |
| Scheduling.MaxIndex | src/main/java/ansrs/service/RecallService.java:14-20 | the head of the max-priority queue: an item no other item outrates |
| Scheduling.RemoveAt | src/main/java/ansrs/service/RecallService.java:52 | `poll` removes exactly one occurrence of the head |
| Scheduling.RemoveAtIds | src/main/java/ansrs/service/RecallService.java:52 | with distinct ids, removing the head removes exactly its id |
| Scheduling.PollStepIds | src/main/java/ansrs/service/RecallService.java:52 | one poll keeps the returned ids distinct and apart from those left |
| Scheduling.PollStepRatings | src/main/java/ansrs/service/RecallService.java:14-20 | one poll keeps the returned items best first and rated at least as high as every item left |
| Scheduling.PollStep | src/main/java/ansrs/service/RecallService.java:52 | one poll of the best item keeps the polling invariant |
| Scheduling.PollOne | src/main/java/ansrs/service/RecallService.java:52 | one `poll()` moves one item from the queue to the result and keeps the polling invariant |
| Scheduling.PollBest | src/main/java/ansrs/service/RecallService.java:50-54 | the loop returns min(max(x, 0), queue size) ids, best first, as a top-x selection |
| Scheduling.RecallService.Create | src/main/java/ansrs/service/RecallService.java:30-36 | a service with the given tuning and an empty queue |
| Scheduling.RecallService.LoadQueue | src/main/java/ansrs/service/RecallService.java:38-42 | fails only on an empty Optional; otherwise the queue holds exactly the listed items, so an empty list gives an empty queue |
| Scheduling.RecallService.Recall | src/main/java/ansrs/service/RecallService.java:50-54 | returns min(max(x, 0), queue size) distinct ids of polled items, in non-increasing rating order; every polled item rates at least as high as every item left, and the queue loses exactly the polled items |
| CsvImport.Sanitize | src/main/java/ansrs/service/CSVImporter.java:90-92 | the result has no quote of either kind and no blank at either end |
| CsvImport.SanitizeClean | src/main/java/ansrs/service/CSVImporter.java:90-92 | a value without quotes or outer blanks is left unchanged |
| CsvImport.SanitizeIdempotent | src/main/java/ansrs/service/CSVImporter.java:90-92 | sanitizing twice is sanitizing once |
| CsvImport.ReadFields | src/main/java/ansrs/service/CSVImporter.java:71-78 | the six fields are sanitized and parsed; every parsed id, count and date is in range |
| CsvImport.CheckFields | src/main/java/ansrs/service/CSVImporter.java:79-82 | a record is accepted only when every value parsed and it passes the row test, and it then carries the parsed values |
| CsvImport.ValidateRecord | src/main/java/ansrs/service/CSVImporter.java:69-88 | malformed (the parse aborts) iff the record does not have six fields; an accepted item has id > 0, a name, an `https://` link, count >= 0 and a date not after today |
| CsvImport.WrittenRecord | src/main/java/ansrs/service/CSVImporter.java:69-78 | an item written in the program's own formats is a six-field record |
| CsvImport.ReadWrittenFields | src/main/java/ansrs/service/CSVImporter.java:71-78 | every field of a written record reads back as the item's value |
| CsvImport.ValidateWrittenItem | src/main/java/ansrs/service/CSVImporter.java:69-88 | a written item is read back as itself iff it passes the row test |
| CsvImport.PoolNameReadBack | src/main/java/ansrs/service/CSVImporter.java:74 | a pool name survives sanitize and parses back to its pool |
| CsvImport.ShownIntClean | src/main/java/ansrs/service/CSVImporter.java:71 | written numbers are unchanged by sanitize |
| CsvImport.ShownDateClean | src/main/java/ansrs/service/CSVImporter.java:76 | written dates are unchanged by sanitize |
| CsvImport.BlankFieldsDefault | src/main/java/ansrs/service/CSVImporter.java:75-78 | a blank last-recall field means today and a blank count means zero |
| CsvImport.CheckRecords | src/main/java/ansrs/service/CSVImporter.java:47 | one check per data row |
| CsvImport.CollectChecksCount | src/main/java/ansrs/service/CSVImporter.java:47-52 | every row is either returned or counted bad, never both |
| CsvImport.CollectChecksAborts | src/main/java/ansrs/service/CSVImporter.java:56-58 | the parse aborts iff some row is malformed |
| CsvImport.CollectChecksItems | src/main/java/ansrs/service/CSVImporter.java:47-52 | the returned items are exactly the accepted ones, in input order |
| CsvImport.AcceptedItemsValid | src/main/java/ansrs/service/CSVImporter.java:79-82 | every item returned passed the row test |
| CsvImport.CollectChecksStep | src/main/java/ansrs/service/CSVImporter.java:47-52 | one more row appends its item or counts it |
| CsvImport.CollectChecksAbortSticks | src/main/java/ansrs/service/CSVImporter.java:83-84 | once a row aborts, the whole parse aborts |
| CsvImport.ValidateRow | src/main/java/ansrs/service/CSVImporter.java:47 | `validateRecord` on one data row |
| CsvImport.ParseRows | src/main/java/ansrs/service/CSVImporter.java:36-53 | the row loop computes the accepted items and the bad-row count |
| CsvImport.Parse | src/main/java/ansrs/service/CSVImporter.java:29-59 | the first record is skipped as a header, refused as a bad header, or read as data; the rest follow |
| AddCommand.Run | src/main/java/ansrs/cli/AddCommand.java:38-71 | rejected iff validation fails; never exit 1; inserts a fresh item dated today with 0 recalls; on a taken id it replaces the row only with `--update` and a successful update |
| DeleteCommand.Run | src/main/java/ansrs/cli/DeleteCommand.java:34-79 | the refusals (`--sure`, id 0 without reset, negative id, absent set entry); hard reset clears table, CompletedSet, WorkingSet with short-circuit; `--database` deletes the row first and then both set entries; the other forms touch only their set |
| RollbackCommand.Call | src/main/java/ansrs/cli/RollbackCommand.java:30-65 | the refusals; `--all` moves every staged id to the WorkingSet and empties the CompletedSet; a single id moves to the WorkingSet and leaves the CompletedSet; the staged pool and date are dropped |
| ImportCommand.SelectAppend | src/main/java/ansrs/cli/ImportCommand.java:54-55 | the filters keep order: filtering a concatenation concatenates the results |
| ImportCommand.SelectMember | src/main/java/ansrs/cli/ImportCommand.java:54-55 | an item is a duplicate iff its id is known, and a unique otherwise |
| ImportCommand.SelectSplits | src/main/java/ansrs/cli/ImportCommand.java:54-55 | duplicates and uniques together hold every parsed item exactly once |
| ImportCommand.UniquesFresh | src/main/java/ansrs/cli/ImportCommand.java:55-56 | the uniques' insert can only hit a key through a repeated id within the file |
| ImportCommand.FreshInsertKeeps | src/main/java/ansrs/cli/ImportCommand.java:56 | a committed insert of fresh ids keeps every existing row and adds the new ones |
| ImportCommand.InsertUniques | src/main/java/ansrs/cli/ImportCommand.java:56 | success iff there are uniques and the batch commits; the table then holds them, and otherwise it is unchanged |
| ImportCommand.Call | src/main/java/ansrs/cli/ImportCommand.java:43-94 | the refusals (blank path, no `.csv`, missing file, bad `--preserve`, no valid rows); a parse abort gives exit 1; db mode inserts only uniques and succeeds iff they commit; csv mode upserts everything |
| CompleteCommand.RecallDate | src/main/java/ansrs/cli/CompleteCommand.java:55 | the recall date is the `--date` value, or today without one |
| CompleteCommand.StageNew | src/main/java/ansrs/cli/CompleteCommand.java:45-48 | offering ids keeps existing entries and stages the new ones with no override and today's date |
| CompleteCommand.OfferAllStagesNew | src/main/java/ansrs/cli/CompleteCommand.java:45-48 | in whatever order the ids are offered, the result is the same |
| CompleteCommand.CompleteOne | src/main/java/ansrs/cli/CompleteCommand.java:46-47 | the id is staged unless already staged, and leaves the WorkingSet |
| CompleteCommand.CompleteAll | src/main/java/ansrs/cli/CompleteCommand.java:43-51 | the WorkingSet ends empty and every id of its snapshot is staged with no override, existing entries kept |
| CompleteCommand.CompleteSingle | src/main/java/ansrs/cli/CompleteCommand.java:54-72 | an id in the WorkingSet leaves it and is staged with the `--update` pool or none; with `--force` an id outside it is staged with its table pool; exit 1 iff that row fetch fails (`getItemById` throws); rejected without `--force` or for a missing row; nothing changes unless it succeeds |
| CompleteCommand.Run | src/main/java/ansrs/cli/CompleteCommand.java:40-107 | the refusals (negative id, 0 without `--all`, `--all` with an id, missing row, bad pool, bad date); exit 1 exactly when the `--force` row fetch throws; then `--all` or the single-id path |
| CommitCommand.Committed | src/main/java/ansrs/cli/CommitCommand.java:43-49 | a committed item takes the override pool only when one is staged, the staged date, and one more recall |
| CommitCommand.CommitAll | src/main/java/ansrs/cli/CommitCommand.java:42-51 | one committed item per fetched row, in fetch order |
| CommitCommand.CommitRows | src/main/java/ansrs/cli/CommitCommand.java:42-53 | a successful commit keeps every id, and every row without a staged entry is unchanged |
| CommitCommand.UpdateCommitted | src/main/java/ansrs/cli/CommitCommand.java:53 | the batch update of the committed rows has exactly the effect `CommitRows` describes |
| CommitCommand.FetchStaged | src/main/java/ansrs/cli/CommitCommand.java:30-41 | refused iff nothing is staged, the fetch fails, or the WorkingSet is non-empty without `--force`; otherwise the staged rows of the table, each once |
| CommitCommand.WithoutElems | src/main/java/ansrs/cli/CommitCommand.java:50 | removing the ids one at a time removes exactly the set of them |
| CommitCommand.CommitOne | src/main/java/ansrs/cli/CommitCommand.java:43-50 | the row gets its completion and its staged entry goes |
| CommitCommand.ApplyCompletions | src/main/java/ansrs/cli/CommitCommand.java:42-51 | the loop computes every completion, and the fetched ids leave the CompletedSet |
| CommitCommand.ApplyAndUpdate | src/main/java/ansrs/cli/CommitCommand.java:42-53 | the table holds the committed rows iff the batch succeeds; the fetched ids are unstaged either way |
| CommitCommand.OfferEachMerges | src/main/java/ansrs/cli/CommitCommand.java:56 | re-offering entries never overwrites: the offered entries under the current ones |
| CommitCommand.OfferEachAll | src/main/java/ansrs/cli/CommitCommand.java:56 | offering every entry, in any order, merges them all under the current map |
| CommitCommand.OfferOne | src/main/java/ansrs/cli/CommitCommand.java:56 | one `addItem(key, pool, date)` of the re-stage loop |
| CommitCommand.Restage | src/main/java/ansrs/cli/CommitCommand.java:56 | the re-stage loop merges the given entries under the current ones |
| CommitCommand.UpdateOrRestageLive | src/main/java/ansrs/cli/CommitCommand.java:53-58 | as written: after a failed batch the entries of the emptied live map are re-offered, so the fetched ids stay unstaged |
| CommitCommand.UpdateOrRestageCopy | src/main/java/ansrs/cli/CommitCommand.java:53-58 | corrected: after a failed batch the table and the CompletedSet are both as before |
| CommitCommand.RunAsWritten | src/main/java/ansrs/cli/CommitCommand.java:29-62 | as written: the refusals; the WorkingSet is untouched; the fetched ids leave the CompletedSet even when the batch fails, and a failed batch still exits 0 |
| CommitCommand.Run | src/main/java/ansrs/cli/CommitCommand.java:29-62 | corrected: a successful batch commits every staged row and unstages it; a failed one exits 1 and leaves both stores as they were |
| CommitCommand.RestageAsWrittenLoses | src/main/java/ansrs/cli/CommitCommand.java:56 | whenever a staged id has a row, re-offering the live map does not bring back the staged entries |
| CommitCommand.RestageCopyRestores | src/main/java/ansrs/cli/CommitCommand.java:55-56 | re-offering a copy taken before the loop restores every staged entry |
| RecallCommand.KeptIdsMember | src/main/java/ansrs/cli/RecallCommand.java:89-96 | the kept custom ids are exactly the positive ids found in the table |
| RecallCommand.Validate | src/main/java/ansrs/cli/RecallCommand.java:73-100 | refused without custom ids and a positive count, for a single bad custom id, or when no custom id survives; otherwise the surviving ids in order |
| RecallCommand.LeftInQueue | src/main/java/ansrs/cli/RecallCommand.java:57-58 | a table row that was not polled is still in the queue |
| RecallCommand.Schedule | src/main/java/ansrs/cli/RecallCommand.java:56-58 | exit 1 iff the rows cannot be read; otherwise the ids of the top-rated rows, as many as asked and available |
| RecallCommand.AddAllAndFill | src/main/java/ansrs/cli/RecallCommand.java:58-62 | `addAll` on the live set and then `fillSet` give the old set plus the picked ids, and the file matches |
| RecallCommand.Call | src/main/java/ansrs/cli/RecallCommand.java:42-67 | refused on a validation failure or a non-empty WorkingSet without `--force`; the WorkingSet becomes the old set (or empty without `--append`) plus the custom ids or the scheduler's ids |
| ArchiveCommand.RequestedCount | src/main/java/ansrs/cli/ArchiveCommand.java:73-81 | the operations requested are counted one per option given |
| ArchiveCommand.CountOps | src/main/java/ansrs/cli/ArchiveCommand.java:72-81 | the counting code computes the number of operations requested |
| ArchiveCommand.SelectOperation | src/main/java/ansrs/cli/ArchiveCommand.java:72-86 | an operation runs iff exactly one is requested, and it is that one |
| ArchiveCommand.HandleAdd | src/main/java/ansrs/cli/ArchiveCommand.java:88-114 | rejected iff the id has no table row or is in a set; Ok iff fetch, insert and delete succeed, and the row then moved; a failed delete undoes the insert; tables stay apart unless that undo fails |
| ArchiveCommand.HandleDelete | src/main/java/ansrs/cli/ArchiveCommand.java:116-129 | rejected without `--sure` or an archived row; Ok iff the delete succeeds; only the archive changes |
| ArchiveCommand.HandleRestore | src/main/java/ansrs/cli/ArchiveCommand.java:131-156 | rejected iff the id is not archived or already has a table row; Ok iff fetch, insert and delete succeed, and the row then moved back; a failed delete undoes the insert |
| ArchiveCommand.EligibleMember | src/main/java/ansrs/cli/ArchiveCommand.java:191-197 | an item is kept iff it is listed and its id is in neither set |
| ArchiveCommand.EligibleIds | src/main/java/ansrs/cli/ArchiveCommand.java:191-197 | from distinct ids the kept items have distinct ids: the listed ids minus the skipped ones |
| ArchiveCommand.CollectEligible | src/main/java/ansrs/cli/ArchiveCommand.java:187-197 | the loop keeps exactly the items whose id is in neither set, in order |
| ArchiveCommand.FreshBatchIds | src/main/java/ansrs/cli/ArchiveCommand.java:204 | the archive batch is fresh iff its ids are distinct and none is archived |
| ArchiveCommand.Restrict | src/main/java/ansrs/cli/ArchiveCommand.java:204 | the rows copied are those of the chosen ids that exist |
| ArchiveCommand.FreshCopyAdds | src/main/java/ansrs/cli/ArchiveCommand.java:204 | a committed batch of table rows adds exactly those rows to the archive |
| ArchiveCommand.ArchiveDeletesSpec | src/main/java/ansrs/cli/ArchiveCommand.java:209-214 | the delete loop removes the rows whose delete succeeds and un-archives those whose delete fails and whose undo succeeds |
| ArchiveCommand.DeleteArchived | src/main/java/ansrs/cli/ArchiveCommand.java:209-214 | the loop computes the per-item delete and compensation |
| ArchiveCommand.MoveAll | src/main/java/ansrs/cli/ArchiveCommand.java:204-214 | the batch commits iff it succeeds and no id is archived; then the delete loop runs; otherwise nothing changes |
| ArchiveCommand.HandleArchiveAll | src/main/java/ansrs/cli/ArchiveCommand.java:178-218 | rejected iff no `--sure`; Ok iff the rows outside both sets are non-empty and the batch commits; the archive gains them and the table loses those whose delete succeeded; a failure changes nothing; tables stay apart when every item's delete or undo succeeds |
| ArchiveCommand.StepLeaves | src/main/java/ansrs/cli/ArchiveCommand.java:232-239 | an item already in the table, or whose insert fails, changes nothing |
| ArchiveCommand.StepRestores | src/main/java/ansrs/cli/ArchiveCommand.java:236-245 | an item inserted and un-archived is restored and counted |
| ArchiveCommand.StepStrands | src/main/java/ansrs/cli/ArchiveCommand.java:240-243 | an item whose archive delete and undo both fail ends in both tables |
| ArchiveCommand.RestoreStepSpec | src/main/java/ansrs/cli/ArchiveCommand.java:231-246 | one pass of the loop keeps its invariant |
| ArchiveCommand.RestoreLoopSpec | src/main/java/ansrs/cli/ArchiveCommand.java:230-246 | over distinct archived rows the loop restores exactly the restored set, strands exactly the stranded set, and counts the restored rows |
| ArchiveCommand.RestoreOne | src/main/java/ansrs/cli/ArchiveCommand.java:232-245 | one pass of the restore loop |
| ArchiveCommand.RestoreEach | src/main/java/ansrs/cli/ArchiveCommand.java:230-246 | the loop computes the restores and the count |
| ArchiveCommand.HandleRestoreAll | src/main/java/ansrs/cli/ArchiveCommand.java:220-255 | rejected iff no `--sure`; Ok iff something was restored; the table gains the restored and stranded rows and the archive loses the restored ones; tables stay apart when nothing is stranded |
| ArchiveCommand.HandleList | src/main/java/ansrs/cli/ArchiveCommand.java:158-162 | always exit 0; shows every archived row once, or nothing when the read fails |
| ArchiveCommand.HandleGet | src/main/java/ansrs/cli/ArchiveCommand.java:164-169 | exit 0 with the archived row iff the id is archived, exit 0 with nothing when it is not; exit 1 when the read fails, because `getItemById` throws (`db/ArchiveManager.java:212-213`) |
| ArchiveCommand.HandleSearch | src/main/java/ansrs/cli/ArchiveCommand.java:171-176 | always exit 0; shows the archived rows whose name contains the trimmed query, ignoring case |
| ArchiveCommand.Call | src/main/java/ansrs/cli/ArchiveCommand.java:54-70 | rejected unless exactly one operation is given; the display operations change nothing; list and search exit 0, get exits 1 iff its read fails; delete never touches the table; a successful add or restore moves the row |

## Left out

- File and database I/O: `Files.*`, JDBC connections, `initTable` and `close` are not modelled. A set's file is a `seq<string>` of lines; a table is a map.
- An `IOException` in the set classes is not modelled: their writes always succeed. Only `loadSet`'s malformed-file exceptions are modelled, as `false`.
- SQL failures are success flags on each statement. A read that the source treats as infallible reads the map.
- `searchItemsByName`: `%` and `_` inside the query are read literally, not as `LIKE` wildcards, and case folding covers ASCII letters only.
- `DBManager` (the item table) is not part of this model's source. It is given the `ArchiveManager` contract.
- The power term `Math.pow(daysSince, 1.2)` is a positive function parameter. Double rounding is not modelled; ratings are reals.
- The `PriorityQueue` heap is not modelled. The queue is the bag of its items, and `poll` takes any best-rated one, so tie order is left open.
- Scheduling.RecallService.LoadQueue: requires the listed rows to have distinct ids, a valid date and a non-negative count, because the rating is only modelled for such rows.
- RecallCommand.Call: requires every table row to have a 32-bit id, a valid date and a non-negative count, for the same reason.
- RecallCommand.Schedule: requires the same of every row.
- `CSVFormat.DEFAULT` tokenising is not modelled: `parse` receives the records already split into fields.
- `ImportCommand.validate`'s filesystem checks (exists, regular, readable) are one `fileOk` flag. An unreadable file after validation is not modelled.
- picocli option binding, help and version output, `Printer`, `Banner`, `Log` and the `--list`/`--debug` state printing are not modelled. List, get and search return the rows they would print.
- Dates: the model bounds years to 0000–9999 and reads and writes exactly four year digits. `LocalDate.parse` and `toString` also accept and write signed years beyond that (`-0001-01-01`, `+10000-01-01`). Such a date is refused by the model where the source accepts it: as `--date` of complete, as a CSV last-recall field, and as a date line or entry date in a set file. `LocalDate.now()` is a parameter.
- String operations are ASCII-only: `isBlank` is modelled as "every character at or below a space" rather than `Character.isWhitespace`, `Integer.parseInt` accepts only ASCII digits (not other Unicode decimal digits), and `equalsIgnoreCase`/`toUpperCase`/`toLowerCase` fold ASCII letters only (so `--preserve cſv`, with U+017F, is refused where the source accepts it).
- Groups (`GroupCommand` and its repositories) and the older program generations under other packages are not modelled.
- Dates.NextDayIsOneLater: stated for valid dates before 9999-12-31 only, because the next day would leave the four-digit range.

## Findings

| source | as written | input that shows it | evidently intended | confidence | as-written member | corrected member |
|---|---|---|---|---|---|---|
| src/main/java/ansrs/cli/CommitCommand.java:56 | after a failed batch update, the re-stage loop iterates `completedSetItems`, the live map of the CompletedSet that the commit loop (line 50) has already emptied of every fetched id | one staged id `7 -> (null, 2024-01-05)` with a table row for 7, and `updateItemsBatch` returning false: the CompletedSet ends empty | re-stage every original entry with its original pool and date (the comment at line 55) | not executed | CommitCommand.RunAsWritten (its ensures: the fetched ids are unstaged whatever `updateOk` is), CommitCommand.RestageAsWrittenLoses | CommitCommand.Run (its ensures: a failed batch leaves the CompletedSet as it was), CommitCommand.RestageCopyRestores |
| src/main/java/ansrs/cli/CommitCommand.java:58 | after a failed batch update, `run()` logs the failure and returns normally, so the command exits 0; the project's own tests (`src/test/java/ansrs/cli/CommitCommandTest.java:125` and `:137`) expect exit 1 | one staged id with a table row, and `updateItemsBatch` returning false | a failed commit ends the command with exit 1 | not executed | CommitCommand.RunAsWritten (its ensures `r != Fail`: every non-refused run exits 0) | CommitCommand.Run (its ensures: exit 1 iff the run is not refused and the batch fails) |
