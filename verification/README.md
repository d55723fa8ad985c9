# drlog-search: verified model

drlog-search looks for lines in log files where they lie. Agents scan directories, keep a sparse
time index per file, and answer queries by reading only the part of a file that the index points
at; a gateway knows the agents and sends each query to those whose files can contain an answer.
This project models the parts of that path that carry the promise "a search finds what reading
everything would find", and proves how far the promise holds.

`dafny verify dfyconfig.toml` checks the whole project.

## How the model is laid out

- Files and lines: `LogLines`, `Sequences`, `Buckets`. A file is a sequence of bytes; recognising a
  time stamp is an arbitrary function `stamp` from a line to a number, 0 for none.
- The text index: `TextIndexer` (the scan and its specification), `IndexShape`, `IndexSize`,
  `ResumeProof` (incremental against from scratch), `GrownIndex` (old index, grown log).
- The index of compressed files: `GzipIndexer` (chunks and carry), `StreamVsText`, `CarryLines`.
- The scanner: `ScanSteps` (its methods on index, cache and counter), `ScanRuns` (all runs),
  `RestartWitness`.
- Search: `Records` (multi-line records), `RecordText` (records and bytes), `LogSearch` (the methods), `IndexedScan` and
  `WindowExactness` (index window against full scan), `OpenEndedLogs` (logs without a closing
  entry), `SplitBucket` (two concrete logs).
- Scanner and search together: `EndToEnd`.
- Boolean queries: `QueryTokens`, `QueryWords` (ways to write a word), `QueryParser`,
  `QueryGrammar`, `QueryFacts`, `QueryRoundTrip`, `QueryMatch`, `QueryMeaning` (from the text of a
  query to the lines it matches).
- Time stamps and identity: `Calendar`, `Murmur`, `HashInverse`, `Etag`.
- The gateway: `AgentLeases`, `Gateway`.
- Text on the wire: `Utf8`, `QueryString`.

Each loop or state-changing method of the program is a method here, proved against a function of
its inputs or of the old state; what the program promises is proved about those functions. Rows of
the table that begin with "Step of the run model" or "Ties the code" are such connections, not
results of their own.

## What the proofs found

- Resuming an index equals rebuilding it, except for logs with a time below one interval: there the
  bucket is 0, which the code also uses for "no entry yet", and one entry is repeated for good
  (`ResumeEqualsRebuild`, `EarlyLogResumesWrong`).
- Entries keep the floored time also when only the line count forced them. A query that starts
  inside such a split bucket can miss records; the exact set of logs on which no query does is
  given (`EveryQueryExactIff`, `SplitBucketHidesRecord`).
- A log that ends in a line without a time, a stack trace say, has no closing entry. Its last record
  is never found whole, and with a single entry nothing is found (`LastRecordNeverWhole`,
  `OpenWindowExactIff`).
- The first pass after a restart replaces the records it has just scanned by cached ones, and cached
  entries that match their own etag are served until the next pass. They are right exactly when the
  lines the file has got in the meantime do not change its index (`FirstPassEntriesExactIff`,
  `RestartServesOldIndex`).
- Between passes a search works on an older version of the file: it finds what a full scan of that
  version finds (`SearchAnytime`, `GrownRecords`).
- The gateway reads published times through a default of type `int`, so its filter agrees with the
  agents exactly for times below 2 to the 31 (`FilterExactIff`).
- The limit is tested after a record is pushed, so a search can return one record more than asked
  for, and with a limit of 0 up to two (`SearchFileTxt`).
- A quoted word without a closing quote is accepted whenever the last byte of the text is that
  quote character, escaped or on its own (`UnclosedQuoteRule`).
- The text of a query is trimmed before it is read, so a blank that is escaped at its end is lost
  (`EscapedBlankIsCut`).
- In a log whose times go back, a header before the range is skipped but the lines under it are
  added to the record before it (`AssemblyOfAnyLog`).
- A pass that only drops records of deleted files does not write the cache (`PassCachesIff`), and a
  file deleted before it is indexed stays listed without entries (`GoneFileAfterPass`).
- Years are stored in 16 bits, so day numbers beyond them convert to other dates, and `ok()` accepts
  these (`DayRoundTripIff`, `OkHidesWrap`).
- The UTF-8 repair checks shapes only: overlong forms pass (`OverlongPasses`).
- The program's own README documents the configuration values `index_interval` and
  `agent_health_check_interval`; the code reads neither. The bucket width is the `interval` of the
  model's configuration (300 seconds in the program), and leases last a fixed 60 seconds.
- `error NOT timeout`, an example of that README, works because operands without an operator
  between them are joined by AND (`LevelMeaning`, `NotQuery`).

## Assumptions

- Times are natural numbers. `stamp([]) == 0` is assumed where an empty line matters.
- A regular log, for the main agreement of index and full scan: times do not go back, timestamped lines
  are at most 16 KiB long, at most 5000 lines come before the first time, and the file ends in a
  complete timestamped line.
- Runs of the scanner: a file's etag tells its size from every size it has had (`EtagTellsIff` says
  what that asks of the real one), files only grow under the same inode, the count threshold forces
  no entry, and times reach one interval. The configuration is the same for the whole run.
- Leases: the clock does not go back and different addresses have different ids.

## Model

| member | source | states |
|---|---|---|
| `LogLines.LinesOfAppend` | src/agent/indexer.cpp:427-433 | Appending bytes to a file, even one that ends inside a line, keeps its complete lines; the new ones are those read on from the unfinished line |
| `LogLines.LinesFromLine` | src/agent/indexer.cpp:411-419 | Reading on from the stored offset of any line finds exactly that line and all its successors |
| `TextIndexer.UpdateFileIndexTxt` | src/agent/indexer.cpp:373-482 | The text indexer, resumption included, returns the entries that folding its per-line rule over the complete lines gives, closed by the exact time of the last line |
| `TextIndexer.ScanLines` | src/agent/indexer.cpp:427-471 | The loop over the mapped bytes reaches the state of that fold, whatever line it starts at |
| `TextIndexer.ScanRestIsRun` | src/agent/indexer.cpp:427-471 | Stepping newline by newline is the same as folding over the list of complete lines |
| `TextIndexer.RunAppend` | src/agent/indexer.cpp:427-471 | Scanning a log in two parts, carrying the scan state over, is scanning it in one go |
| `IndexShape.RegularEntries` | src/agent/indexer.cpp:455-467 | The regular entries are the marked lines in order, each with its floored time; the bucket variable is the newest entry's time; a scan that gave up has no entries |
| `IndexShape.LastSeen` | src/agent/indexer.cpp:435-443 | The closing entry's line is the last complete line that is not over-long, and over-long lines change nothing else |
| `IndexShape.MarkedPrefix` | src/agent/indexer.cpp:456-459 | Before the line of the i-th regular entry the scan had exactly the first i of them |
| `IndexShape.GivesUpIff` | src/agent/indexer.cpp:435-452 | The scan gives up if and only if some short line without a timestamp comes after at least 5000 lines of which none could be indexed; over-long lines count, but do not stop it themselves |
| `IndexShape.EmptyIndexIff` | src/agent/indexer.cpp:429-482 | A text index is empty if and only if no line can be indexed or the scan gave up |
| `ResumeProof.ResumeEqualsRebuild` | src/agent/indexer.cpp:411-482 | For every file and every grown version of it, cut anywhere: if the count threshold forces no entry, resuming gives the from-scratch index if and only if the old index does not end in a repeated zero-time entry |
| `ResumeProof.FirstStep` | src/agent/indexer.cpp:413-423 | After its first line the resumed scan agrees with the rebuild in everything but its counters, except in that one case |
| `ResumeProof.StepOver` | src/agent/indexer.cpp:420-421 | Resuming at a line whose own entry was kept adds nothing unless its bucket is 0, which marks the line again |
| `ResumeProof.RepeatStays` | src/agent/indexer.cpp:456-459 | A repeated entry is never mended by later lines |
| `ResumeProof.ShortLogsNeverForced` | src/agent/indexer.cpp:458-460 | A log with no more lines than the threshold never has a forced entry |
| `SplitBucket.EarlyLogResumesWrong` | src/agent/indexer.cpp:420-421 | A concrete unchanged log, with a time below the interval, whose resumed index differs from its rebuilt one |
| `IndexSize.IndexSizeBound` | src/agent/indexer.cpp:455-482 | With times going forward, an index has at most 2 entries plus one per interval between first and last bucket plus one per threshold of timestamped lines |
| `IndexSize.EntriesStartLines` | src/agent/indexer.cpp:455-482 | For every file: regular offsets strictly increase, at most one closing entry follows, and every entry points at the start of a timestamped line |
| `GzipIndexer.UpdateFileIndexIgzip` | src/agent/indexer.cpp:613-726 | The chunk loop, for every list of chunks: the index of the whole stream, or, when the unfinished line first overflows the carry buffer, the entries of the complete lines so far without a closing one |
| `GzipIndexer.FitsMeansStream` | src/agent/indexer.cpp:640-726 | However the stream is cut into chunks, the index is that of the whole stream, provided no line can overflow the carry buffer |
| `GzipIndexer.OverflowLosesClosing` | src/agent/indexer.cpp:661-665 | However the stream is cut: without an overflow of the carry the index of the whole stream, and else the index of what was read before the first overflow, short of its closing entry |
| `GzipIndexer.NeverMore` | src/agent/indexer.cpp:684-687 | A scan that has given up has no entries at the end, whatever chunks follow |
| `GzipIndexer.TakeChunk` | src/agent/indexer.cpp:659-725 | One chunk takes the loop from the bytes so far to the bytes with the chunk, also while the scan is held up |
| `GzipIndexer.ScanCarry` | src/agent/indexer.cpp:671-716 | Scanning the carry handles exactly its complete lines at their absolute offsets, or stops for good at the line that ends the search for timestamps |
| `GzipIndexer.ChunkLines` | src/agent/indexer.cpp:659-669 | The complete lines of carry plus chunk, moved by the base offset, are exactly the new lines of the stream, and the new carry is its unfinished line |
| `GzipIndexer.EntriesIffTimes` | src/agent/indexer.cpp:680-699 | A chunk scan has entries exactly when it has seen a timestamp, and until then only counts lines |
| `StreamVsText.RunsAgree` | src/agent/indexer.cpp:671-716 | On lines of at most 16 KiB the chunked and the mapped indexer make the same regular entries, although they count lines differently |
| `StreamVsText.StreamIndexEqualsTextIndex` | src/agent/indexer.cpp:646-655 | On such lines the two whole indexes are equal if and only if there are no entries or the last complete line has a timestamp |
| `CarryLines.GetLinesGzip` | src/agent/searcher.cpp:168-195 | Appends exactly the complete lines from `pos` on and leaves exactly the unfinished one; past the end it leaves nothing |
| `CarryLines.FedIsWhole` | src/agent/searcher.cpp:168-195 | Fed chunk by chunk, however cut, the lines are those of the whole stream and the carry is its unfinished line |
| `ScanSteps.FileIndexer.constructor` | src/agent/indexer.cpp:30-42 | A new scanner has an empty index; its cache is what an earlier process saved |
| `ScanSteps.FileIndexer.ScanRoot` | src/agent/indexer.cpp:209-226 | Each eligible file gets its record: replaced for a new inode, renewed but with the old entries for a new size or modification time, untouched otherwise; all other records stay |
| `ScanSteps.FileIndexer.IndexFile` | src/agent/indexer.cpp:252-257 | The entries of one file by type: resumed from the previous ones for text, those of its chunks for a compressed file; none when it cannot be opened |
| `ScanSteps.FileIndexer.RefreshFile` | src/agent/indexer.cpp:241-268 | One record gets new entries and their etag exactly when it has none or those of another etag |
| `ScanSteps.FileIndexer.UpdateFileIndex` | src/agent/indexer.cpp:237-273 | Every stale record is refreshed, every other is left alone, and the counter is the number of stale ones |
| `ScanSteps.FileIndexer.RemoveUnusedIndexes` | src/agent/indexer.cpp:811-831 | A record is dropped if and only if it has entries and its file is gone; the records that stay are unchanged |
| `ScanSteps.FileIndexer.SaveIndexToCache` | src/agent/indexer.cpp:833-906 | Step of the run model: the cache becomes the index, unless nothing was updated |
| `ScanSteps.FileIndexer.LoadIndexFromCache` | src/agent/indexer.cpp:908-990 | Step of the run model: the index becomes the cached records of files the scan has found, under roots that are still configured; without a cache it stays |
| `ScanRuns.ScanPass` | src/agent/indexer.cpp:117-127 | One turn of the scan loop is scan, update, prune and save, on the same state |
| `ScanRuns.InitIndexes` | src/agent/indexer.cpp:92-103 | The first pass loads the cache between scanning and updating |
| `ScanRuns.NextKeeps` | src/agent/indexer.cpp:92-129 | Every step, restarts and file changes included, keeps the invariant: the entries of each record of a live file, in memory and in the cache, are the exact index of a prefix of the file that is at least as long as the size their etag was computed for |
| `ScanRuns.RunKeeps` | src/agent/indexer.cpp:92-129 | The invariant holds at the end of every run |
| `ScanRuns.PassIsExact` | src/agent/indexer.cpp:117-129 | A pass on a quiet disk leaves every eligible file with the exact index of its current bytes, and every record with entries has its file on disk |
| `ScanRuns.ScanKeepsEntries` | src/agent/indexer.cpp:209-226 | What a scan leaves: a found file is described as it is and keeps its entries exactly when it is still the same inode; all other records stay |
| `ScanRuns.PassDropsExactly` | src/agent/indexer.cpp:811-831 | After updating, a pass drops exactly the records that have entries although their file is gone, and changes none that stays |
| `ScanRuns.GoneFileAfterPass` | src/agent/indexer.cpp:237-273 | A file that disappears before the pass reaches it stays listed, now without entries, if it was waiting to be indexed or had none, and is dropped otherwise |
| `ScanRuns.PassCachesIff` | src/agent/indexer.cpp:123-127 | A pass writes the cache if and only if some record was stale; dropping records alone leaves the cache as it was |
| `ScanSteps.GzipNames` | src/agent/indexer.cpp:198-204 | A name is that of a compressed file if and only if it ends in `.gz` in any letter case |
| `ScanRuns.SecondPassDoesNothing` | src/agent/indexer.cpp:117-129 | A second quiet pass re-indexes nothing and changes nothing |
| `ScanRuns.EveryRunIndexesExactly` | src/agent/indexer.cpp:92-129 | At the end of any run of passes, saves, restarts and file changes, one quiet pass gives every eligible file the exact index of its bytes, leaves no entries for files that are gone, and makes the next pass do nothing |
| `GrownIndex.GrownIndexSameIff` | src/agent/indexer.cpp:427-482 | For every log and every grown version of it, each cut anywhere: both have the same index if and only if the new complete lines are all over-long, or none of them gets an entry and there are no entries or neither version has a closing one |
| `ScanRuns.FirstPassEntriesExactIff` | src/agent/indexer.cpp:92-103 | For a text file that is still the one its cached record is about: the entries after the first pass are the exact index of the file if and only if there is no cache, or the cached entries are stale by their own etag, or the lines the file has got since do not change its index |
| `ScanRuns.FirstPassExactIff` | src/agent/indexer.cpp:92-103 | The first pass leaves a record that also has the size, modification time and inode of its file if and only if there is no cache or the cached record already had them |
| `ScanRuns.FirstPassServesCache` | src/agent/indexer.cpp:92-103 | A cached record whose entries match its own etag is served unchanged, whatever the file now holds; under a root that is no longer configured its file is not served at all |
| `ScanRuns.OnlyFoundFilesReturn` | src/agent/indexer.cpp:908-990 | Loading the cache brings back no record of a file that was not found or whose root is no longer configured |
| `RestartWitness.RestartServesOldIndex` | src/agent/indexer.cpp:92-103 | A concrete run (log indexed, saved, grown, process restarted) after whose first pass the old entries are served |
| `LogSearch.LogSearcher.ParseLine` | src/agent/searcher.cpp:48-85 | One line of the record assembly: the new open record and the records waiting are those of the specification step |
| `Records.AssemblyIsGrouping` | src/agent/searcher.cpp:48-85 | With non-decreasing times, parsing all lines and flushing gives exactly the in-range records, each header joined with its own continuation lines |
| `Records.AssemblyFrom` | src/agent/searcher.cpp:48-85 | The same from any open record, which is completed first, when no header before the range follows one in it |
| `Records.AssemblyOfAnyLog` | src/agent/searcher.cpp:48-85 | Whatever the order of the times, the assembled records are the in-range records of the log with the headers before the range deleted: lines under such a header continue the record before it |
| `RecordText.RecordsAreTheLog` | src/agent/searcher.cpp:48-85 | Written out again, the records of a log are its bytes from the first header line up to the unfinished last line |
| `RecordText.LinesAreTheLog` | src/agent/searcher.cpp:116-121 | Written out again, the complete lines of a file are its bytes up to the unfinished line |
| `RecordText.EveryHeaderAnswered` | src/agent/searcher.cpp:48-85 | Every header line with a time in the range, ends included, starts a record of the full scan |
| `Records.GroupedSplit` | src/agent/searcher.cpp:48-85 | Cutting a log in front of a header cuts no record |
| `Records.WindowKeepsRecords` | src/agent/searcher.cpp:112-153 | A window of lines keeps every in-range record if it starts at a header with only early headers before and ends with the log or at the first of only late headers |
| `LogSearch.AcceptedNarrows` | src/agent/searcher.cpp:24-34 | One more searcher filters the matches of the others further; without searchers everything matches |
| `LogSearch.SearcherKinds` | src/agent/searcher.cpp:24-34 | A simple searcher accepts exactly the texts that contain its word, as a boolean one of that single word does |
| `LogSearch.LogSearcher.AcceptsAll` | src/agent/searcher.cpp:26-34 | The loop that leaves at the first searcher that refuses computes the verdict of all of them |
| `LogSearch.LogSearcher.ExecSearchers` | src/agent/searcher.cpp:18-46 | The matches of the batch are appended in order up to the limit; because the limit is tested after the push, a full list can grow by one |
| `LogSearch.LogSearcher.FindIndexPos` | src/agent/searcher.cpp:517-557 | A window is found exactly when neighbouring entries cover the range, and it reaches from the first such pair to the last |
| `LogSearch.LogSearcher.GetLine` | src/agent/searcher.cpp:112-120 | The line at a position without its newline, where the next one starts, and whether the reading ends with it |
| `LogSearch.LogSearcher.SearchBatch` | src/agent/searcher.cpp:121-135 | A batch of records is searched and forgotten, and the matches so far stay the first ones |
| `LogSearch.LogSearcher.ReadWindow` | src/agent/searcher.cpp:112-136 | At the end of the reading loop either the whole window has been assembled with all matches so far kept, or the limit was reached with the first matches kept |
| `LogSearch.LogSearcher.FinishWindow` | src/agent/searcher.cpp:137-153 | The final flush searches the open record and those waiting |
| `LogSearch.LogSearcher.SearchFileTxt` | src/agent/searcher.cpp:87-166 | Up to the limit the results are exactly the first matching records of the window, with at most one record more; each result has a time in the range and a text that every searcher accepts; offsets past the file give an error and no results |
| `LogSearch.FinishedIsFirst` | src/agent/searcher.cpp:121-153 | Why batching and the final flush keep the first matches right whether or not the limit was reached before |
| `LogSearch.WindowExists` | src/agent/searcher.cpp:530-543 | Whenever some neighbouring entries cover the range there is a window, and its start is before its end |
| `WindowExactness.SearchPath` | src/agent/searcher.cpp:607-671 | Finding the window and searching it, with the index of the file or of an older version of it, gives the first matches of a scan of that whole version, and no window only when none of its records is in range, if the query starts at no split bucket or the version has its splits at their floors |
| `WindowExactness.OldWindowReads` | src/agent/searcher.cpp:112-136 | A window of an older version's index reads the same records from the grown file as from that version |
| `WindowExactness.GrownRecords` | src/agent/searcher.cpp:48-85 | How the two scans differ: the records before the last line of the older version agree, the record of its last line lacks the continuation lines that came later, and the records of the new headers are missing |
| `OpenEndedLogs.OpenWindowExactIff` | src/agent/searcher.cpp:112-153 | In a log that ends in a line without a time, a query that starts clean gets the records of a full scan if and only if no header after the line of the window's last entry is in range and that line, if in range, has no continuation |
| `OpenEndedLogs.EarlyQueryExact` | src/agent/searcher.cpp:517-557 | There, queries that end before the last entry lose nothing |
| `OpenEndedLogs.LastRecordNeverWhole` | src/agent/indexer.cpp:473-481 | There, every query that has the last record in range finds no window or other records than a full scan; with a single entry no query finds a window |
| `OpenEndedLogs.WindowParts` | src/agent/searcher.cpp:112-153 | A window returns the records between its two lines and the first line of the header it ends at; a full scan also finds those before and everything from that header on |
| `EndToEnd.SearchAfterPass` | src/agent/searcher.cpp:607-671 | After any run of the scanner, one quiet pass and then a search of an eligible regular text file give the first matches of a full scan of the file as it is |
| `EndToEnd.SearchAnytime` | src/agent/searcher.cpp:607-671 | At any moment of any run, a search of a live text file with the entries in memory gives the first matches of a full scan of some version of the file at least as long as the size their etag was computed for, if that version is regular |
| `IndexedScan.EntriesPlaced` | src/agent/indexer.cpp:455-482 | In a regular log each entry stands at a header at or after its time, in order, and headers before it lie less than an interval after the previous entry |
| `IndexedScan.NoWindowNoRecords` | src/agent/searcher.cpp:530-548 | No window means that no record of the file is in range |
| `IndexedScan.WindowAgreesWithScan` | src/agent/searcher.cpp:112-153 | A window that does not start at a split of the query's own bucket holds exactly the in-range records of the whole file |
| `IndexedScan.AlignedStartsClean` | src/agent/indexer.cpp:455-466 | A query that starts on an interval boundary never meets such a split |
| `IndexedScan.UnforcedStartsClean` | src/agent/indexer.cpp:456-459 | Nor does any query when the count forces no entry and all times reach one interval |
| `WindowExactness.WindowMissesOnlyEarlier` | src/agent/searcher.cpp:112-153 | For every query with a window: the records of a full scan are those of the window preceded by the in-range records of the lines before the window's first entry |
| `WindowExactness.EveryQueryExactIff` | src/agent/searcher.cpp:517-557 | On a regular log, every query gets exactly the records of a full scan if and only if no line before the last entry of a time is later than that entry's floored time |
| `WindowExactness.SplitHides` | src/agent/indexer.cpp:455-466 | Any such line is lost by a query that can be named |
| `SplitBucket.SplitBucketHidesRecord` | src/agent/indexer.cpp:455-466 | A concrete log whose bucket was split by the count and a query that misses its only record in range |
| `QueryTokens.TokenizeText` | src/agent/searchers/boolean_searcher.cpp:34-96 | Ties the code to the reading rules the next rows are about: the loop returns the tokens, or the error, that they give |
| `QueryTokens.ScanQuoted` | src/agent/searchers/boolean_searcher.cpp:46-56 | The inner loop reads a quoted word with its escapes, to the closing quote or the end |
| `QueryTokens.ScanBare` | src/agent/searchers/boolean_searcher.cpp:79-87 | Ties the code to the reading rules: the inner loop over an unquoted word |
| `QueryWords.TokenizeName` | src/agent/searchers/boolean_searcher.cpp:69-77 | The name of an operator at the end of the text, before a blank or before a parenthesis is that operator |
| `QueryWords.TokenizePlain` | src/agent/searchers/boolean_searcher.cpp:69-96 | An ordinary word, written as it is, is one word token, also when it begins with the name of an operator |
| `QueryWords.TokenizeWritten` | src/agent/searchers/boolean_searcher.cpp:34-96 | Every non-empty word, written bare with escapes, in single quotes or in double quotes, is one word token |
| `QueryWords.ReadEscaped` | src/agent/searchers/boolean_searcher.cpp:46-56 | Reading an escaped word up to its quote gives the word |
| `QueryWords.BareBeforeQuote` | src/agent/searchers/boolean_searcher.cpp:69-87 | A quote ends the bare word in front of it, and there even the name of an operator is a word |
| `QueryWords.AdjacentRefused` | src/agent/searchers/boolean_searcher.cpp:60-93 | A word right after a word is refused, with the error of its kind |
| `QueryWords.EmptyQuotesVanish` | src/agent/searchers/boolean_searcher.cpp:60-66 | An empty pair of quotes is no token |
| `QueryWords.NeverClosed` | src/agent/searchers/boolean_searcher.cpp:46-66 | A quoted word that is never closed is refused, unless it ends in an escaped quote; then it is the whole word |
| `QueryTokens.UnclosedQuoteRule` | src/agent/searchers/boolean_searcher.cpp:57-59 | A text starting with a quote is refused for it exactly when the quote is never closed and the text does not happen to end in that quote character |
| `QueryParser.ParseExpr` | src/agent/searchers/boolean_searcher.cpp:100-157 | The recursive descent over a shared cursor computes one nesting level and leaves the cursor at its end |
| `QueryParser.ParseOperandAt` | src/agent/searchers/boolean_searcher.cpp:108-125 | NOT takes a word or a parenthesised level and nothing else |
| `QueryParser.ParseGroupAt` | src/agent/searchers/boolean_searcher.cpp:130-135 | A level in parentheses, or the mismatch error |
| `QueryParser.CombineLevel` | src/agent/searchers/boolean_searcher.cpp:143-156 | Ties the code to the node of a level; mixed operators fail only where two operands are combined |
| `QueryMeaning.LevelVerdict` | src/agent/searchers/boolean_searcher.cpp:100-157 | What becomes of a level with legal insides: null without operands, its only operand, an error for operators of both kinds, and else a combination, by AND when there is no operator |
| `QueryMeaning.LevelMeaning` | src/agent/searchers/boolean_searcher.cpp:143-156 | A level of two or more operands matches the lines that all of them match, or some of them if it has an OR |
| `QueryMeaning.NotWithoutOperand` | src/agent/searchers/boolean_searcher.cpp:108-125 | NOT not followed by a word or an opening parenthesis is refused, wherever it stands |
| `QueryMeaning.OpenedNotClosed` | src/agent/searchers/boolean_searcher.cpp:113-135 | An opening parenthesis that is never closed is refused, with one error after NOT and another elsewhere |
| `QueryMeaning.ClosedNotOpened` | src/agent/searchers/boolean_searcher.cpp:159-174 | A closing parenthesis that was never opened is refused as extra content |
| `QueryMeaning.EmptyGroup` | src/agent/searchers/boolean_searcher.cpp:130-135 | An empty pair of parentheses matches no line, its negation every line |
| `QueryMeaning.AndQuery` | src/agent/searchers/boolean_searcher.cpp:34-174 | From text to lines: two plain words with AND between them match the lines that contain both |
| `QueryMeaning.OrQuery` | src/agent/searchers/boolean_searcher.cpp:34-174 | With OR between them, the lines that contain one or the other |
| `QueryMeaning.NotQuery` | src/agent/searchers/boolean_searcher.cpp:34-174 | With NOT between them, the lines that contain the first and not the second |
| `QueryGrammar.ParserIsGrammar` | src/agent/searchers/boolean_searcher.cpp:100-167 | A token list parses to a tree if and only if it is written by a legal sentence of a declarative grammar that stands for that tree |
| `QueryGrammar.ParseItems` | src/agent/searchers/boolean_searcher.cpp:100-157 | The parser accepts every legal level, whatever follows it |
| `QueryGrammar.ItemsOf` | src/agent/searchers/boolean_searcher.cpp:100-157 | Whatever the parser accepts is a legal level with the tree it returns |
| `QueryFacts.ParsingLosesNothing` | src/agent/searchers/boolean_searcher.cpp:100-165 | On success the leaves are the words in order, NOT nodes number the NOT tokens, parentheses are balanced in every prefix, and the tokens are those of a sentence with this tree in which every level that combines operands uses one operator |
| `QueryRoundTrip.RenderRoundTrip` | src/agent/searchers/boolean_searcher.cpp:20-167 | Every tree with non-empty words and two or more children per combination, written canonically with each word bare or in quotes of either kind and any blanks around the whole, compiles to that same tree, provided that no word written bare ends in a blank |
| `QueryRoundTrip.EscapedBlankIsCut` | src/agent/searchers/boolean_searcher.cpp:20-25 | That proviso is needed: trimming cuts an escaped blank off the end of the text |
| `QueryRoundTrip.TokenizeItems` | src/agent/searchers/boolean_searcher.cpp:34-96 | The rendered text of any spaced level tokenizes to its tokens |
| `QueryRoundTrip.CanonIsTree` | src/agent/searchers/boolean_searcher.cpp:143-156 | The canonical level is legal and stands for the tree |
| `QueryMatch.BooleanSearcher.constructor` | src/agent/searchers/boolean_searcher.cpp:9-10 | A new searcher has no pattern |
| `QueryMatch.BooleanSearcher.BuildPattern` | src/agent/searchers/boolean_searcher.cpp:159-174 | The searcher holds the compiled pattern, or none when it was refused |
| `QueryMatch.BooleanSearcher.SearchLine` | src/agent/searchers/boolean_searcher.cpp:219-270 | The verdict is the plain boolean meaning of the pattern; with results, the list is cleared first and becomes the report of a match |
| `QueryMatch.MatchNode` | src/agent/searchers/boolean_searcher.cpp:225-266 | Short-circuit evaluation agrees with the boolean meaning; on failure the output list is unchanged, on success the node's report is appended |
| `QueryMatch.MatchAll` | src/agent/searchers/boolean_searcher.cpp:243-253 | The AND loop succeeds when all children hold and joins their reports |
| `QueryMatch.MatchSome` | src/agent/searchers/boolean_searcher.cpp:255-262 | The OR loop succeeds at the first child that holds and appends only its report |
| `QueryMatch.Find` | src/agent/searchers/boolean_searcher.cpp:228-229 | The first position of a word in a line, or -1 when it does not occur |
| `QueryMatch.ReportIsEvidence` | src/agent/searchers/boolean_searcher.cpp:225-266 | Every reported pair is the first occurrence in the line of a word of the pattern that stands outside every NOT |
| `QueryMatch.OrReportsFirst` | src/agent/searchers/boolean_searcher.cpp:255-262 | Of an OR, exactly the first operand that holds reports |
| `QueryMatch.AndReportsEach` | src/agent/searchers/boolean_searcher.cpp:243-253 | Of an AND, all operands report, in order |
| `QueryMeaning.ContainsIff` | src/agent/searchers/boolean_searcher.cpp:228-229 | A line contains a word if and only if it is something, the word, and something |
| `QueryMeaning.AllAndSome` | src/agent/searchers/boolean_searcher.cpp:243-262 | AND holds when all operands do, OR when some operand does |
| `QueryMeaning.DeMorgan` | src/agent/searchers/boolean_searcher.cpp:237-242 | The laws of De Morgan and of double negation hold for patterns |
| `QueryMeaning.MoreWordsHelp` | src/agent/searchers/boolean_searcher.cpp:225-266 | Without NOT, a line with more of the words matches whenever one with fewer does; under a NOT it is the other way round |
| `QueryMeaning.OnlyWordsMatter` | src/agent/searchers/boolean_searcher.cpp:225-266 | The verdict depends only on which words of the pattern the line contains |
| `QueryMatch.ReportSuffices` | src/agent/searchers/boolean_searcher.cpp:225-266 | For a pattern without NOT, any line that contains the reported words matches too |
| `Calendar.DateRoundTrip` | libs/date/date.h:3090-3109 | Converting an existing date whose year fits 16 bits to its day number and back gives the date |
| `Calendar.DayRoundTripIff` | libs/date/date.h:3090-3109 | A day number is the number of the date it converts to if and only if it lies within the years -32768 to 32767: outside, storing the year in 16 bits loses it |
| `Calendar.DaysIncrease` | libs/date/date.h:2976-2993 | Later dates have larger day numbers |
| `Calendar.NextDateNextDay` | libs/date/date.h:2976-2993 | The next date has the next day number; 1 January 1970 has number 0 |
| `Calendar.OkExactlyInRange` | libs/date/date.h:3009-3017 | A day number converts to an `ok()` date that has this number if and only if it lies within the years -32767 to 32767 |
| `Calendar.OkExactly` | libs/date/date.h:3009-3017 | For every day number the date it converts to is `ok()` if and only if the stored year is not the reserved one and, for a 29 February, is a leap year |
| `Calendar.FromDaysRepeats` | libs/date/date.h:1687 | Because the year is stored in 16 bits, the conversion repeats every 4096 eras |
| `Calendar.OkHidesWrap` | libs/date/date.h:1707-1713 | `ok()` does not detect a cut year: every date it accepts is also what a later day number, within 32 bits, converts to |
| `Calendar.MonthLengths` | libs/date/date.h:2740-2754 | The table of month lengths fits the month formula, February ending the March-based year |
| `Calendar.LeapCorrection` | libs/date/date.h:3090-3109 | The leap corrections of the year formula undo the leap days so far |
| `Calendar.WeekdaysGoRound` | libs/date/date.h:1829-1833 | Weekdays follow one another over the whole 32-bit range from a Thursday at day 0, in spite of the wrap-around |
| `Murmur.MurMurHash64` | src/util/util.cpp:13-44 | The hash loop computes the mixing of all 8-byte blocks, the tail and the finish, modulo 2 to the 64 |
| `Murmur.ReadTail` | src/util/util.cpp:33-37 | The tail loop reads the last bytes in little-endian order |
| `Murmur.HashSeparates` | src/util/util.cpp:13-44 | Two byte strings of equal length that differ inside one block, or only in the tail, have different hashes |
| `Murmur.TimesInjective` | src/util/util.cpp:26-29 | Multiplying by the constant loses nothing modulo 2 to the 64 |
| `Murmur.FoldInjective` | src/util/util.cpp:27 | Xor with its own shift by 47 loses nothing |
| `Murmur.BlockChangeShows` | src/util/util.cpp:21-30 | A change inside one block changes the hash state after all blocks |
| `HashInverse.XorBit` | src/util/util.cpp:26-29 | The exclusive or goes bit by bit |
| `HashInverse.BlockRecovered` | src/util/util.cpp:13-44 | A text of eight bytes can be computed back from its hash and the seed: every operation is undone in turn |
| `HashInverse.TailRecovered` | src/util/util.cpp:31-44 | So can a shorter one, whose bytes enter unmixed |
| `HashInverse.EmptyTextValue` | src/util/util.cpp:13-44 | The hash of the empty text under the seed 1 is c6a4a7935bd064dc |
| `HashInverse.LetterValue` | src/util/util.cpp:13-44 | The hash of the letter a under the seed 0 is 071717d2d36b6b11 |
| `Etag.EtagFromSizeMtime` | src/util/util.cpp:46-58 | Ties the code to the function the results are about: the padded hexadecimal hash of size and modification time packed in 16 bytes |
| `Etag.EtagChanges` | src/util/util.cpp:46-58 | The etag changes whenever exactly one of size and modification time changes |
| `Etag.EtagSpellsHash` | src/util/util.cpp:46-58 | An etag is sixteen lower-case hexadecimal digits that read as the hash |
| `Etag.BufferHolds` | src/util/util.cpp:48-53 | What is hashed is the size and then the time in two's complement, eight bytes each, lowest first |
| `HashInverse.EmptyFileEtag` | src/util/util.cpp:46-58 | The etag of an empty file of time zero is 98da369c7313a826 |
| `EndToEnd.EtagTellsIff` | src/util/util.cpp:46-58 | With this etag the assumption of a run that etags tell sizes apart holds if and only if no change of both size and modification time collides |
| `AgentLeases.AgentManager.constructor` | src/gateway/agent_manager.cpp:11 | A new registry is empty |
| `AgentLeases.AgentManager.AddAgent` | src/gateway/agent_manager.cpp:24-40 | Step of the run model: an announcement renews a known id's lease and keeps its address, or adds a record |
| `AgentLeases.AgentManager.GetAgentById` | src/gateway/agent_manager.cpp:43-55 | Step of the run model: the record of an id that has not expired, and nothing otherwise |
| `AgentLeases.AgentManager.GetActiveAgents` | src/gateway/agent_manager.cpp:57-69 | The records that have not expired, each once |
| `AgentLeases.AgentManager.CleanupExpiredAgents` | src/gateway/agent_manager.cpp:71-91 | Exactly the expired records are removed |
| `AgentLeases.RunTracks` | src/gateway/agent_manager.cpp:24-91 | After every run the registry holds, under its id, each address still leased, with the time of its last announcement |
| `AgentLeases.ActiveExactlyLeased` | src/gateway/agent_manager.cpp:43-69 | With a clock that does not go back and distinct ids, the active agents are exactly the addresses announced in the last 60 seconds, and looking one up agrees |
| `AgentLeases.CleanupsChangeNothing` | src/gateway/agent_manager.cpp:71-91 | Adding or removing cleanup steps anywhere changes no answer |
| `AgentLeases.FirstAddressStays` | src/gateway/agent_manager.cpp:24-40 | Without a cleanup an id keeps the address first announced under it, whatever is announced under the same id later |
| `AgentLeases.ClockSetBack` | src/gateway/agent_manager.cpp:43-69 | Because the difference of times is unsigned, an agent whose announcement lies ahead of the clock counts as expired |
| `Gateway.FilterByTime` | src/gateway/gateway_handler.cpp:310-314 | Exactly the files whose published range misses the query are dropped, the rest keep their order |
| `Gateway.KeptCounts` | src/gateway/gateway_handler.cpp:310-314 | A file whose published range meets the query is kept as often as it is there, any other not at all |
| `Gateway.KeptOfAppend` | src/gateway/gateway_handler.cpp:310-314 | The kept files keep their order: filtering goes part by part |
| `Gateway.NoEntriesNoWindow` | src/gateway/gateway_handler.cpp:485-486 | A file without entries is published with times 0, so it passes the filter for queries from 0 on, although its agent finds no window |
| `Gateway.CoveredIffSpanned` | src/agent/searcher.cpp:530-557 | In a sorted index of two or more entries some neighbours cover the range exactly when first and last entry span it |
| `Gateway.FilterAgreesWithAgent` | src/gateway/gateway_handler.cpp:310-314 | With times below 2 to the 31, the gateway keeps a file exactly when the agent finds a window, and that window starts before it ends |
| `Gateway.FilterExactIff` | src/gateway/gateway_handler.cpp:485-486 | The filter agrees with the agent for every query if and only if the last time is below 2 to the 31, because the times are read through a default of type `int` |
| `Gateway.GroupByAgent` | src/gateway/gateway_handler.cpp:528-536 | Joined together the groups are the sorted list; no group is empty, each is of one agent, no agent has two |
| `Gateway.FanOutConserves` | src/gateway/gateway_handler.cpp:306-536 | After filter, sort and group a file is in a group exactly when its published range meets the query, in no other group, and there as often as it was among the results |
| `Gateway.EveryAgentServedOnce` | src/gateway/gateway_handler.cpp:450-460 | With the ceiling division, each agent is in the index range of exactly one coroutine, for any agent count and range size |
| `Utf8.EnsureUtf8` | src/agent/agent_handler.cpp:263-315 | The repair loop returns the repaired text |
| `Utf8.RepairedIsFormed` | src/agent/agent_handler.cpp:263-315 | By byte ranges: the result is a concatenation of 00-7F, C0-DF and one byte 80-BF, E0-EF and two, F0-F7 and three; a text is unchanged if and only if it has that form |
| `Utf8.RepairFromLeft` | src/agent/agent_handler.cpp:263-315 | A sequence of that form in front stays, and a byte that starts none becomes a question mark |
| `Utf8.RepairedIsWellShaped` | src/agent/agent_handler.cpp:263-315 | The result has the length of the input and differs from it only in question marks for bytes above 127 |
| `Utf8.UnchangedIffWellShaped` | src/agent/agent_handler.cpp:263-315 | Repairing twice is repairing once, and the shape test accepts exactly the unchanged texts |
| `Utf8.RepairOfAppend` | src/agent/agent_handler.cpp:263-315 | A well-shaped beginning is untouched by what follows |
| `Utf8.ValidIsUnchanged` | src/agent/agent_handler.cpp:263-315 | Every text that is valid by section 4 of RFC 3629 is unchanged |
| `Utf8.OverlongPasses` | src/agent/agent_handler.cpp:275-283 | The converse fails: an overlong form is let through |
| `QueryString.UrlEncode` | src/util/util.cpp:155-165 | The encoding loop percent-encodes every byte that is not unreserved |
| `QueryString.UrlDecode` | src/util/util.cpp:138-153 | The decoding loop replaces each percent sign that has two bytes after it, together with them, by one byte |
| `QueryString.DecodeEncode` | src/util/util.cpp:138-165 | Decoding undoes encoding for every byte string |
| `QueryString.EncodedByte` | src/util/util.cpp:155-165 | A byte is kept if it is unreserved by section 2.3 of RFC 3986 and else becomes a percent sign and the two upper-case hexadecimal digits of its value |
| `QueryString.EncodedIsPercentForm` | src/util/util.cpp:155-165 | Encoded text consists of unreserved bytes and percent signs with two upper-case digits |
| `QueryString.DecodedTriple` | src/util/util.cpp:138-153 | A percent sign and two hexadecimal digits of either case decode to the byte with that value |
| `QueryString.DecodedCopy` | src/util/util.cpp:138-153 | Any other byte is copied, as is a percent sign without two bytes after it |
| `QueryString.EncodedIsPlain` | src/util/util.cpp:155-165 | Encoded text contains none of `&`, `=` and `?` |
| `QueryString.ParseRequest` | libs/bst-http/http_base.hpp:88-122 | The target is split at the first `?`; the parameters are inserted in order, the first value of a key staying; an empty target fails and changes nothing |
| `QueryString.QuerySplits` | libs/bst-http/http_base.hpp:101-120 | A query written from a list of parameters splits into exactly that list |
| `QueryString.FirstParam` | libs/bst-http/http_base.hpp:101-120 | The text before the first `&` is a parameter: a key up to its first `=` and a value, or a key with an empty value |
| `QueryString.EmplacedIsFirst` | libs/bst-http/http_base.hpp:109-113 | Inserting keeps earlier keys and otherwise the first value of each key |
| `QueryString.RequestRoundTrip` | libs/bst-http/http_base.hpp:88-122 | A path without `?` and any list of parameters come back from the target they are written as: the path, exactly the keys, and for each its first value |
| `QueryString.DistinctKeysAllReturn` | libs/bst-http/http_base.hpp:109-113 | With distinct keys that is every parameter with its own value |

## Left out

- Time-stamp recognition, regular expressions, locale and time zone: an arbitrary function of the line, and an arbitrary predicate for the regex searcher.
- Times before 1970: the modelled times are natural numbers, so truncation of negative times to buckets does not arise.
- Input and output errors, `mmap`, file handles, locks, logging and exceptions: a file is its bytes, a pass is a sequence of atomic steps, and a file that cannot be opened gives no entries.
- The format of the cache file: the cache is a saved value of the index; `last_index_time` and fields that only describe the file are not kept.
- Root paths and their filters: a predicate on paths.
- The shared `FileIndex` objects: records are values, so a reader that holds one while it is refreshed is not modelled.
- `search_file_igzip` and `search_file_gzip`: short reads are errors there and lines are not parsed when start and end fall into one chunk, so they do not refine a full scan; only `get_lines_gzip` is modelled.
- `update_file_index_txt` and `update_file_index_gzip`: nothing calls them.
- Decompression: a compressed file is read as an arbitrary list of non-empty chunks that its bytes determine, without read errors.
- HTTP, sessions, coroutines and connection pools: the steps of the gateway run one after another.
- The gateway's final sort of result records: its comparison is no strict order when `start_time` is missing on both sides.
- `date::parse` and the other stream code of the date library: only the conversions between dates and day numbers are modelled. Years are stored in 16 bits there as in the code; day numbers are unbounded, while in the code those above 2147483647 - 719468 overflow an `int`.
- Match evidence in search results: `search` always asks without results, so records carry no positions.
- The machine widths of counters, offsets and sizes: unbounded, except in the hash, the etag, the leases, the years, the weekdays and the gateway's times, where the width decides the result.
- ScanRuns.FirstPassEntriesExactIff: says nothing of compressed files, nor of a path whose file was replaced under a new inode while the process was down; there the cached entries are those of another file, and a stale one is even resumed from them.
- OpenEndedLogs.OpenWindowExactIff: only for queries that start clean; for the others `OpenEndedLogs.WindowParts` says what is found.
- LogSearch.LogSearcher.SearchFileTxt: requires at least one searcher, because `search` refuses requests without queries; records that `exec_searchers` has moved from are not read again and not modelled.
- Gateway.GroupByAgent: requires a sorted list, as `std::sort` leaves it, and non-empty agent ids; an empty id would use the last group of an empty list.
- Gateway.FilterByTime: builds the kept list instead of shifting elements inside the vector.
- Murmur.MurMurHash64: lengths are below 2 to the 31, as the cast of the aligned length to `int` demands.
- QueryString.UrlDecode: what the stream extraction makes of a pair that is not two hexadecimal digits is a parameter.
