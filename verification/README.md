# A verified model of consul-timeline

consul-timeline watches a Consul datacenter, turns consecutive states into an event log, stores and
indexes the log twice (in a memory ring, and in MySQL as rows plus a per-minute rollup), compiles
queries to SQL, and streams events live. This project models those parts in Dafny and proves what
they are for.

A time is an integer number of nanoseconds since the zero time of Go (the first instant of year 1).
The clock, the network, the database's answers, the scheduler and cancellation are inputs: every
statement holds for all of them. Code that updates fields, buffers or channels is a class or a method
with loops, proved against a function of its inputs or of the old state; the lemmas are about those
functions. Go map iteration is an arbitrary choice of the next key. A channel that only collects
output is the history of what was sent.

- `Timeline`, `Queries`, `Catalog`: events, queries with their reference matcher, Consul's catalog.
- `Sql`, `Like`, `QueryCompiler`: a token-level SQL reader that takes arguments left to right, the
  LIKE matcher (section 8.5 of ISO/IEC 9075:1992, with MySQL's default escape), and the compiler.
- `Paging`, `MemoryStore`, `MysqlEvents`, `Backends`: keyset pagination, the two stores that serve
  pages, and when they serve the same ones.
- `Counting`, `Arithmetic`, `Histogram`, `HistogramQueries`, `MysqlHistogram`: histograms over 64-bit
  durations, with what their two SQL statements ask for.
- `MysqlTables`, `MysqlStore`: partitions, the rollup, chunked transactions, maintenance.
- `Diffs`, `Compare`, `WatchRun`, `Watcher`, `NodeRun`, `Startup`: the watcher, one comparison at a
  time and over whole runs, its readiness counter and its set of watches.
- `Stream`, `Hub`: the live stream as interleaved atomic steps, and the hub whose methods make them.
- `BatchWriter`: batching, retries and shutdown.
- `Decimal`, `Strings`, `CursorCodec`, `UrlState`: the round trips.
- `Wrappers`, `Sequences`: options and concatenation.

## Where the code and its comments part

The model follows the code. These are results, each with the exact condition under which the code
does what is promised.

- A check type ending in `*` is a prefix for the database and literal for the matcher
  (`TypeFilterAgrees`). A kind or status outside the table is named "unknown" by the matcher but
  stored as its number (`EnumFilterAgrees`). A collation shows on a name exactly when another
  character folds onto one of those compared, the star of a prefix not being one (`CollationShows`,
  and on compiled text `NameQueryCompiles`).
- A stream client can be sent an event past one that was dropped for it: the failed send and the
  raising of the overflow flag are two steps, and a reader that empties the whole channel in between
  has looked at the flag for the last time (`DropOvertaken`). Whether that can happen is decided by
  the first raise alone (`FirstRaiseDecides`); it cannot if the two steps are one
  (`AtOnceNeverCaughtUp`).
- Pages return an event twice exactly when an event other than the oldest is at the zero time, whose
  cursor starts over (`ZeroTimeStartsOver`, `PagesRepeatExactly`).
- A cursor loses the part of its time below the millisecond in a URL (`RoundTripExactly`), and the
  memory store keeps that part. All events of one comparison share a time, so a page that ends among
  them loses the rest of them (`BatchCutLosesRest`). Pages fetched with printed cursors repeat
  nothing and skip exactly the events left behind by a cut cursor (`CutCursorSkips`,
  `WireWalkStable`). Of a store that does not change they return everything, for every page size,
  exactly when each event but the oldest is at a whole millisecond, or the next one is of an earlier
  millisecond, or that one is at the beginning of the same millisecond with a smaller ID
  (`WirePagesCompleteExactly`; for any changes, `NothingSkippedExactly`). The database keeps whole
  milliseconds, so nothing is skipped there (`WholeMillisecondsNotSkipped`).
- The backends cut a page at different limits, which shows exactly when more than 1000 events are
  asked for and left (`PagesAgreeExactly`); otherwise they answer alike on rows they read alike
  (`StoresAgree`).
- A replay from the memory store is to give every event after a time and loses those of the first
  millisecond after it (`ReplayLoses`).
- The three ways of making a histogram lose and add different rows at the ends of the range: the
  memory store loses an event at exactly the end when the width divides the span
  (`HistogramConserves`); the rows are counted from the whole second of the start on, so the direct
  path loses up to a second at the end that the memory store keeps (`DirectConserves`,
  `DirectDropsEarlier`); the rollup counts whole minutes, which is the range exactly when it begins
  and ends with one (`RollupConserves`, `RollupCountsRangeExactly`).
- A histogram has a negative number of buckets and crashes exactly when a rounding addition wraps
  around by at least a bucket's width (`BucketsNegative`); with at least two buckets every wrap does,
  as over any range of more than 292 years (`WideSpansCrash`). The sampled flag is also set when the sample holds just all rows (`SampledExactly`).
- A batch whose context ends during the pause between two attempts is neither stored nor counted as
  dropped (`PersistedExactly`).
- A watch that is told to stop while it pauses after an error reports nothing (`EndsEmpty`).
- A second maintenance run on the same day issues statements exactly when the retention is below
  minus one day (`SecondRunIssuesNothing`).
- The headline of a node event says missing also when a node that stays loses its last check
  (`MissingHeadline`).

## Model

| member | source | states |
|---|---|---|
| Timeline.PositionOfFirst | timeline/event.go:36-43 | A parser finds the first position of a name, and nothing exactly when the table lacks it |
| Timeline.NamesInverse | timeline/event.go:26-85 | A parsed status or kind is the one value printed as that name, except that every value outside the table also prints "unknown" |
| Timeline.TableNames | timeline/event.go:26-85 | The names of the statuses and kinds, as printed and as asked for |
| Decimal.ParseFormat | storage/storage.go:82-83 | A printed integer is read back as itself exactly when it fits 64 bits, and rejected otherwise |
| Decimal.ParseExactly | storage/storage.go:82-83 | A text is read as a number if and only if it is a sign or none, leading zeros and the printed number, and that fits 64 bits |
| Queries.ValidFilterExactly | storage/storage.go:190-218 | A filter is accepted if and only if it has values and each of them could match some event |
| Like.EscapedIsLiteral | storage/mysql/query.go:74-76 | An escaped text in a pattern consumes exactly itself, whatever wildcards and escapes it holds |
| Like.PrefixPattern | storage/mysql/query.go:155-158 | An escaped text followed by `%` matches exactly the strings with that prefix |
| Like.ContainsPattern | storage/mysql/query.go:115-118 | An escaped text between two `%` matches exactly the strings that contain it |
| QueryCompiler.FilterSQL | storage/mysql/query.go:123-170 | The loops produce the condition and the arguments of a filter that FilterMeans gives a meaning to |
| QueryCompiler.BuildWhere | storage/mysql/query.go:102-121 | The condition is the conjunction of time, datacenter, filters and text, and the arguments are theirs in that order |
| QueryCompiler.FilterMeans | storage/mysql/query.go:123-170 | Wherever a compiled filter stands, it consumes exactly its own arguments and is true when one value applies, or none if negated |
| QueryCompiler.SearchMeans | storage/mysql/query.go:115-119 | The text condition with its four arguments searches output, service, node and check name |
| QueryCompiler.CompiledMeaning | storage/mysql/query.go:102-121 | For every valid query and row the condition evaluates without error, leaves no argument over, and is true exactly when all its parts hold |
| QueryCompiler.StoredCuts | storage/mysql/storage.go:109-125 | What is stored of an event is all of it but the output beyond 4096 |
| QueryCompiler.EnumFilterAgrees | storage/mysql/query.go:127-137 | On kinds, statuses and counts the compiled and the interpreted filter agree if and only if the row's code is in the table or "unknown" is not asked for |
| QueryCompiler.TypeFilterAgrees | storage/storage.go:274-275 | On check types they agree on all rows if and only if no value ends in `*` |
| QueryCompiler.CompilerCorrect | storage/mysql/query.go:102-184 | Compiler correctness: on every comparable stored row, evaluating the compiled text with its arguments gives the reference matcher's answer under the database's collation, with the time bounds the compiler adds |
| QueryCompiler.CompilerMatches | storage/storage.go:222-303 | When the names of a query and of a row are in folded form, the compiled text means Match itself |
| QueryCompiler.CompilerMatchesAlways | storage/storage.go:222-303 | So it does on every stored row, whatever its names, when no other character folds onto one in the names of the query |
| QueryCompiler.CollationShows | storage/storage.go:298-303 | A value, starred or not, keeps its exact meaning on all names if and only if no other character folds onto one of those compared |
| QueryCompiler.NameQueryCompiles | storage/mysql/query.go:138-170 | For the query for one name the compiled text means Match itself on every stored row if and only if no other character folds onto one of those compared |
| Paging.RemainingSuffix | storage/memory/storage.go:98-103 | In a newest-first list what is past a cursor is a suffix |
| Paging.PageSplits | storage/memory/storage.go:98-113 | A page and what is past its next cursor split what was past the previous cursor, the page being newer |
| Paging.PageFull | storage/memory/storage.go:104-113 | A page is as long as the limit unless that is all there is, which it says |
| Paging.WalkStable | storage/memory/storage.go:89-115 | Following cursors over arbitrarily changing states: strictly newest first, nothing twice, and once a page is the last, everything present at all pages has been returned |
| Paging.NonZeroTimesSetCursors | storage/memory/storage.go:105-110 | Events at non-zero times never give the zero cursor |
| Paging.ZeroTimeStartsOver | storage/storage.go:61 | With an event at the zero time before another, whatever tells them apart, the walk returns the same event twice |
| Paging.PagesRepeatExactly | storage/memory/storage.go:89-115 | Over a store that does not change, pages of every size return nothing twice if and only if no event but the oldest is at the zero time |
| Paging.SortedUnique | storage/memory/storage.go:80-85 | The newest-first order determines the list, so any correct sort gives this one |
| MemoryStore.Storage.constructor | storage/memory/storage.go:31-36 | A new store is an empty log over a ring of the configured or the default size |
| MemoryStore.Storage.StoreEvents | storage/memory/storage.go:38-52 | The ring is an append log cut to its last entries: a batch is appended with consecutive IDs |
| MemoryStore.Storage.UpsertInstances | storage/memory/storage.go:54-65 | The registry takes the new records one after the other |
| MemoryStore.FirstSeenKept | storage/memory/storage.go:59-61 | Whatever is upserted, an instance keeps the time it was first seen |
| MemoryStore.UpsertTakesLast | storage/memory/storage.go:54-65 | An instance some record is about is as the last such record says, first seen when it was, or if new as the first such record says |
| MemoryStore.UpsertLeaves | storage/memory/storage.go:54-65 | An instance no record is about stays as it was |
| MemoryStore.MatchingMatches | storage/memory/storage.go:70-87 | The matching list is strictly decreasing in time and ID and holds exactly the matching entries among the last N |
| MemoryStore.Storage.MatchingEvents | storage/memory/storage.go:70-87 | Reading the ring backwards from the next position, filtering and sorting gives that list |
| MemoryStore.Storage.Search | storage/memory/storage.go:99-103 | The binary search finds where the events past the cursor begin |
| MemoryStore.Storage.Events | storage/memory/storage.go:89-115 | A query is rejected if invalid, and otherwise answered by the page after its cursor of the matching list |
| MemoryStore.Storage.Since | storage/memory/storage.go:240-253 | Replay gives the oldest of the events that its query matches, at most the limit of them |
| MemoryStore.ReplayLoses | storage/memory/storage.go:240-253 | Of the events strictly after the time a replay loses exactly those of the first millisecond after it, so nothing if and only if there are none there (or the bound is the zero time, which is open) |
| MemoryStore.ReplayComplete | storage/memory/storage.go:240-253 | At whole milliseconds a replay loses nothing |
| MemoryStore.Storage.Histogram | storage/memory/storage.go:117-153 | A valid query is answered as HistogramCovers, ExplicitRangeCounted and OtherRanges say, and an invalid one rejected |
| MemoryStore.HistogramCovers | storage/memory/storage.go:117-153 | The buckets of an answer follow each other from the start, an open one being an hour before the end, to the end, an open one being now; there are as many as asked for, or up to twice as many, when there is room; each counts the matching events of its stretch and all together those in range |
| MemoryStore.ExplicitRangeCounted | storage/memory/storage.go:117-153 | Over explicit bounds an answer counts every matching event, except one at exactly the end if and only if the last bucket ends there |
| MemoryStore.OtherRanges | storage/memory/storage.go:129-141 | A range that does not go forward has no buckets; one of more than 292 years crashes |
| MemoryStore.BucketsCount | storage/memory/storage.go:145-151 | A bucket's total and parts count exactly the matching events whose time falls into it |
| MemoryStore.HistogramConserves | storage/memory/storage.go:132-151 | Over explicit bounds the totals count every matching event, except one at exactly the end when the width divides the span |
| MemoryStore.RingPagesStable | storage/memory/storage.go:38-115 | Pagination over the ring is stable under any batches stored and any entries evicted between pages |
| Histogram.BucketsCoverSpan | storage/memory/storage.go:140 | There are enough buckets for the span and none too many |
| Histogram.CoverIsTight | storage/memory/storage.go:140 | The last bucket ends with the span if and only if the width divides it |
| Histogram.BucketsExist | storage/memory/storage.go:140-141 | There is a bucket if and only if the rounding addition stays within 64 bits |
| Histogram.BucketsNegative | storage/memory/storage.go:140-141 | The number of buckets is negative if and only if the rounding addition wraps around by at least a width |
| Histogram.WideSpansCrash | storage/memory/storage.go:136-141 | With a width computed for at least two buckets, on either path, the number is negative if and only if the rounding addition wraps around, as for the longest duration |
| Histogram.BucketsBounded | storage/memory/storage.go:136-140 | Cutting the width to seconds makes at most twice the buckets asked for |
| Histogram.RollupBucketsBounded | storage/mysql/query.go:264-282 | So does cutting it to seconds and then to minutes, which leaves a multiple of a minute |
| Histogram.BucketsAsked | storage/memory/storage.go:134-140 | With room for as many seconds there are at least as many buckets as asked for |
| Histogram.RollupBucketsAsked | storage/mysql/query.go:264-282 | So there are with room for as many minutes after cutting to minutes |
| Histogram.IndexIsBucket | storage/memory/storage.go:146-147 | With truncating division an event's index is a bucket exactly when its time is in that bucket's stretch, the first one reaching one width back |
| Histogram.InRangeIff | storage/memory/storage.go:146-148 | A time is counted if and only if it is before the end of the last bucket, times up to a width early included |
| Histogram.InRangeExactly | storage/memory/storage.go:146-148 | A time is counted if and only if it is later than a width before the start and before the end of the last bucket |
| Histogram.AddFills | storage/mysql/query.go:287-294 | Adding to a slot keeps every bucket equal to the totals of the additions made; slots out of range are dropped |
| Histogram.Conserved | storage/mysql/query.go:287-294 | The totals of all buckets add up to every addition in range |
| Histogram.TotalIsSumOfParts | storage/mysql/query.go:292-293 | Each total is the sum of its breakdown, over any listing of the keys |
| MysqlEvents.CursorConditionMeaning | storage/mysql/query.go:196-200 | With the cursor's condition and arguments appended, the text means the filters and being past the cursor |
| MysqlEvents.BuildEventsWhere | storage/mysql/query.go:196-200 | Appending the cursor's text and arguments gives the conjunction of all parts with their arguments in order |
| MysqlEvents.SelectsRemaining | storage/mysql/query.go:196-202 | The rows the database selects are the filtered rows past the cursor |
| MysqlEvents.SortRemaining | storage/mysql/query.go:202 | Sorting what is past the cursor and cutting the sorted list at the cursor are the same |
| MysqlEvents.Events | storage/mysql/query.go:188-224 | Fetching one row more than the limit gives the same page after the cursor as the reference |
| MysqlEvents.TablePagesStable | storage/mysql/query.go:188-224 | Pagination over the table is stable under any inserts, drops and clock readings between pages |
| Backends.StoresAgree | storage/storage.go:222-303 | A table with the events of the ring, in any order, gives the same list for a query as the ring, on uncut rows that both read alike and within the bounds the compiler adds, when nothing else folds onto its names |
| Backends.PagesAgreeExactly | storage/mysql/query.go:188-224 | Of one list the two backends cut the same page if and only if the limit is at most 1000 or no more events are left |
| HistogramQueries.BuildRollupWhere | storage/mysql/query.go:296-305 | The condition is the conjunction of minute, datacenter and filters, with their arguments in that order |
| HistogramQueries.BuildStatement | storage/mysql/query.go:295-328 | The statement asked for: table, grouped column, condition, and all arguments in order, the sample limit last |
| HistogramQueries.RollupTextMeans | storage/mysql/query.go:296-305 | The rollup's condition, evaluated with its arguments, is true of a key exactly when its minute and datacenter are asked for |
| HistogramQueries.RollupAnswered | storage/mysql/query.go:296-306 | So an answer to that statement sums the rollup over those keys |
| HistogramQueries.RowsAnswered | storage/mysql/query.go:323-329 | An answer to the other statement counts the newest matching rows, by the bucket and key that the reference gives them |
| HistogramQueries.SampleIsWhole | storage/mysql/query.go:323-329 | If no more rows match than the sample holds, counting the sample is counting the table |
| MysqlTables.InsertKeeps | storage/mysql/storage.go:133-135 | An insert keeps bounds increasing and every row in the lowest partition that bounds it, and adds one row |
| MysqlTables.ReorganizeKeeps | storage/mysql/storage.go:301-303 | Splitting the catch-all partition loses no row and leaves each in its place |
| MysqlTables.DropKeeps | storage/mysql/storage.go:322-324 | Dropping a partition loses rows of its day or earlier only |
| MysqlStore.TallyCounts | storage/mysql/storage.go:109-125 | The counts of a chunk are the numbers of its events per key |
| MysqlStore.MergeTally | storage/mysql/storage.go:127-154 | Adding the counts of a chunk to the rollup keeps it equal to the number of rows for every unexpired key |
| MysqlStore.RollupMeans | storage/mysql/storage.go:109-154 | The entry of a datacenter, an unexpired minute, a kind and a status counts the rows of just those |
| MysqlStore.RollupTabulates | storage/mysql/query.go:296-306 | Any listing of the rollup tabulates the rows for conditions on unexpired minutes |
| MysqlStore.Storage.StoreChunk | storage/mysql/storage.go:105-154 | Rows and counts go in together or not at all, also when a failed commit was applied; the rollup keeps counting the rows |
| MysqlStore.Storage.StoreEvents | storage/mysql/storage.go:85-96 | Whatever fails, whole chunks have gone in, in order and up to the first transaction not reported as done, and no other row; success means all of them |
| MysqlStore.Storage.UpsertInstances | storage/mysql/storage.go:156-186 | Whatever fails, the registry has taken whole chunks of the records, in order and up to the first transaction not reported as done |
| MysqlStore.EnsureKeeps | storage/mysql/storage.go:283-310 | Adding partitions loses no row; every statement issued has a bound above all existing ones, in increasing order, and the new partitions are those that went through |
| MysqlStore.EnsureCovers | storage/mysql/storage.go:297-308 | A successful run issues exactly the days among yesterday, today and tomorrow above the latest partition |
| MysqlStore.DropExact | storage/mysql/storage.go:312-328 | A successful pass drops exactly the partitions that end by the cutoff and no row at or after it |
| MysqlStore.DropDaysKeeps | storage/mysql/storage.go:312-328 | Even a pass that fails midway drops only expired partitions and no row at or after the cutoff |
| MysqlStore.SecondRunIdle | storage/mysql/storage.go:283-328 | On a table with no partition past tomorrow, a second run on the same day issues no statement if and only if the retention is at least minus one day |
| MysqlStore.Storage.SecondRunIssuesNothing | storage/mysql/storage.go:283-328 | In every state that is reached on days that never go back, a second run issues no statement if and only if the retention is at least minus one day |
| MysqlStore.FindLatest | storage/mysql/storage.go:291-296 | The first loop finds the day of the latest partition |
| MysqlStore.Storage.EnsurePartitions | storage/mysql/storage.go:283-310 | If the listing fails or lacks the catch-all partition nothing is touched; otherwise the table and statements are those of the specification, and only a refused statement fails; the rollup invariant is kept |
| MysqlStore.Storage.AddMissing | storage/mysql/storage.go:297-308 | The loop over the three days issues the specified statements and stops at the first that fails |
| MysqlStore.Storage.DropExpiredPartitions | storage/mysql/storage.go:312-328 | If the listing fails nothing is touched; otherwise the pass over it in any order gives the specified table, and only a refused statement fails; the rollup invariant is kept |
| MysqlStore.DeleteBatches | storage/mysql/storage.go:332-344 | Only expired entries are removed, and a run without error removes all of them or as many as its rounds allow |
| MysqlStore.Storage.PruneRollup | storage/mysql/storage.go:250-252 | No count at or after the cutoff changes; unless a delete fails no count before it is left, or as many are gone as the rounds allow; the rollup keeps counting the rows |
| MysqlStore.Storage.PruneInstances | storage/mysql/storage.go:253-255 | Instances seen since the cutoff stay unchanged; unless a delete fails no other is left, or as many are gone as the rounds allow |
| MysqlStore.Storage.Maintain | storage/mysql/storage.go:224-257 | On days that never go back: without the lock nothing changes; with it the partitions are those of the specification, no row, count or instance at or after the cutoff is lost whatever fails, and if nothing does no count or instance before it is left, or as many are gone as the rounds allow; the rollup keeps counting the rows |
| MysqlHistogram.Histogram | storage/mysql/query.go:245-346 | A query is rejected if invalid, an empty range has no buckets, a negative number of them crashes, and otherwise the buckets are filled from what the database answers to the statement, which may fail |
| MysqlHistogram.Fill | storage/mysql/query.go:287-345 | Every group of the answer is added once, at its slot and key, and the sampled flag says whether the answer reached the sample size |
| MysqlHistogram.BucketsPlaced | storage/mysql/query.go:245-294 | The buckets follow each other from the start to the end of the range, in whole seconds or from the rollup in whole minutes, as many as asked for or up to twice as many when there is room |
| MysqlHistogram.StatementChosen | storage/mysql/query.go:270-295 | The rollup is asked if and only if only datacenters are filtered, no text is searched for and the range is at least six hours |
| MysqlHistogram.SampledExactly | storage/mysql/query.go:323-345 | Whatever rows the sample took, the flag is set if and only if at least as many rows match as it holds |
| MysqlHistogram.SplitKeyIsBucketKey | storage/mysql/query.go:361-367 | The key read back from the grouped column is the key the reference counts under |
| MysqlHistogram.KeyConditionIsRowCondition | storage/mysql/query.go:296-305 | On datacenter filters alone the condition on the rollup's keys is the condition on the rows |
| MysqlHistogram.RollupRefinesRows | storage/mysql/query.go:271-320 | For a start on a minute every bucket wholly inside the range counts from the rollup, in all and by key, exactly the matching rows of its stretch |
| MysqlHistogram.RollupOffByOne | storage/mysql/query.go:287-296 | For any start a row counted from the rollup lands in its own bucket or the one before, never at a negative index |
| MysqlHistogram.RollupConserves | storage/mysql/query.go:295-320 | For any start the totals from the rollup count the rows of the datacenters from the minute of the start to the end of the minute of the end |
| MysqlHistogram.RollupCountsRangeExactly | storage/mysql/query.go:295-320 | Those are the rows of the range if and only if it begins with a minute and ends with one |
| MysqlHistogram.DirectCountsRows | storage/mysql/query.go:323-345 | On the direct path each bucket counts, in all and by key, the matching rows from the whole second of the start on |
| MysqlHistogram.DirectConserves | storage/mysql/query.go:323-345 | The totals count the matching rows from the whole second of the start to the end of the last bucket; all rows if and only if all lie there, and always if the range ends before it |
| MysqlHistogram.DirectDropsEarlier | storage/mysql/query.go:325-344 | A row that the memory store counts is dropped if and only if it lies in the last fraction of a second that the start is past its whole second |
| Catalog.Aggregate | watch/compare.go:267-295 | The four flags compute the worst vote of all checks |
| Catalog.WorstVote | watch/compare.go:250-295 | The aggregate is the vote of some check that none outranks, maintenance over critical over warning over passing, and never missing |
| Catalog.Precedence | watch/compare.go:250-295 | Maintenance wins, then critical, warning and passing; unknown is what is left |
| Catalog.ConsulNamesKept | timeline/event.go:26-60 | A status Consul names is printed under that name, any other as unknown |
| Catalog.MissingMeansNoChecks | watch/compare.go:250-265 | An instance is never missing; a node is exactly when it has no checks |
| Catalog.IndexInstances | watch/compare.go:225-238 | Incomplete entries are skipped, a later entry replaces an earlier one, and every healthy entry counts |
| Catalog.IndexIsLast | watch/compare.go:225-238 | The index holds the last complete entry of every key, and no other |
| Catalog.HealthyCounts | watch/compare.go:225-238 | Every entry without checks, or whose aggregate is passing, counts as healthy |
| Catalog.SelectChecks | watch/compare.go:240-248 | The checks attached to the instance, or to the node, in order |
| Catalog.IndexChecks | watch/compare.go:109-116 | Checks by identifier, the last one winning |
| Catalog.ChecksAreLast | watch/compare.go:109-116 | Of the selected checks the index holds the last of every identifier, and no other |
| Diffs.ReplayReports | watch/compare.go:133-148 | A list with one report per changed key replays, in whatever order it was sent, to exactly the changes |
| Compare.FirstSetIs | watch/compare.go:36-37 | Team, application and version are the first of their meta keys that is set |
| Compare.ServiceChecksAre | watch/compare.go:240-248 | A service watch is about the checks attached to the service, the last of each identifier, and not about those of the node |
| Compare.SurvivorReports | watch/compare.go:66-70 | The check events of a surviving instance are the events of the service comparison about it |
| Compare.InstanceReports | watch/compare.go:55-83 | An instance that appeared or vanished is one event, not one per check |
| Compare.DiffReplays | watch/compare.go:31-84 | Replaying the events of one comparison gives exactly the new instances, and the check statuses of every instance in both snapshots |
| Compare.DiffTakes | watch/compare.go:31-149 | Every check event of an instance starts from the status that a picture of the old snapshot shows of the check, and an instance event from whether the instance is there |
| Compare.ChangeDescribed | watch/compare.go:31-149 | What is reported, exactly, and what each field of an event says: the instance as it is or was, its status and the check's before and after, the output of a check that is there |
| Compare.FingerprintsAgree | watch/compare.go:184-201 | With a hash that tells profiles apart, fingerprints are equal if and only if name, address, port, tags in any order and both metas are |
| Compare.RecordsAgree | watch/compare.go:154-201 | A record says what the registration says; two records at one time are equal if and only if the fingerprints, node addresses and tags in order are, so a changed node address alone is not announced |
| Watcher.Watcher.CompareChecks | watch/compare.go:106-149 | Two map iterations in any order emit exactly one event per check that appeared, vanished or changed its raw status, as CheckDescribed says |
| Watcher.Watcher.Announce | watch/compare.go:154-182 | A record is sent and the mark renewed exactly when it is forced, unknown, changed or too old |
| Watcher.Watcher.AnnounceAll | watch/watch.go:239-247 | A whole snapshot is announced entry after entry |
| Watcher.Watcher.CompareService | watch/compare.go:31-84 | Exactly one event per instance that appeared or vanished and per check change of a survivor, on distinct cells; one announcement per instance due; marks of the vanished dropped |
| Watcher.Watcher.Receive | watch/watch.go:232-250 | A fetch announces, compares or refreshes, and moves the index, which restarts at zero when it goes back; it crashes exactly when it announces an incomplete entry, after the entries before it |
| Watcher.Watcher.Leave | watch/watch.go:213-218 | The stop signal compares what is known with nothing |
| Watcher.Watcher.WatchService | watch/watch.go:206-252 | For any inputs the loop emits and sends what the run specification allows, round by round, until an input ends it or it crashes on an incomplete entry, and what had been sent by then |
| WatchRun.RunReplays | watch/watch.go:206-252 | Over any run with errors, index resets and timeouts, replaying all events on the first snapshot gives exactly the instances of the last, and the check statuses of every instance that never left |
| WatchRun.RunTakes | watch/watch.go:206-252 | Over any run every event starts from what replaying all events before its comparison shows: a check event of an instance that never left from the last status known, an instance event from whether it is there |
| WatchRun.EventsDescribe | watch/watch.go:206-252 | Over any run every event is as said of the comparison with the snapshot fetched before, at the index and time of its round |
| WatchRun.ComparedExactly | watch/watch.go:235-250 | A fetch is compared unless it returns at the index asked for; after the index went back whatever comes next is |
| WatchRun.EndsEmpty | watch/watch.go:211-230 | An ended watch leaves an empty picture if and only if it left through the stop signal or knew no instance |
| WatchRun.GoesOn | watch/watch.go:206-230 | The loop goes on after fetches and after errors it slept through, and otherwise ends |
| WatchRun.CrashesExactly | watch/watch.go:232-250 | A round crashes if and only if it is the first or a timed-out fetch and an entry lacks its node or service |
| WatchRun.StopReportsAll | watch/watch.go:213-218 | The stop signal reports every remaining instance missing, once, and nothing else |
| WatchRun.HealthChained | watch/compare.go:31-53 | Every event's old healthy count is that of the snapshot fetched before it, and its new count that of the snapshot it reports |
| WatchRun.MarksCurrent | watch/compare.go:151-161 | After every round there is a mark for exactly the current instances, with the current fingerprint; after a fetch none is older than the refresh time |
| WatchRun.RoundSends | watch/compare.go:151-182 | A round sends the record of an instance exactly when it is due, and renews only those marks |
| WatchRun.RecordsSent | watch/compare.go:151-182 | Whatever a round sends is the record of an entry it fetched, at the time of the fetch |
| WatchRun.ChangesAnnounced | watch/compare.go:151-182 | An instance that is new, or whose fingerprint changed, is announced in the round that fetches it |
| WatchRun.RefreshSpaced | watch/compare.go:151-161 | Two successive announcements of an unchanged instance that stayed are at least the refresh time apart |
| NodeRun.CompareNode | watch/compare.go:88-104 | A node that left is one event; otherwise one event per node check that changed, with the node's old and new status |
| NodeRun.Receive | watch/watch.go:336-348 | A fetch keeps the node's own checks and compares them when the index moved |
| NodeRun.WatchNode | watch/watch.go:313-350 | For any inputs the loop emits what the run specification allows until an input ends it |
| NodeRun.RunReplays | watch/watch.go:313-350 | While the node is in the catalog, replaying all events on the checks first fetched gives exactly the statuses last fetched |
| NodeRun.RunTakes | watch/watch.go:313-350 | While the node is in the catalog every event about a check starts from the status that replaying all events before gives it |
| NodeRun.EventsDescribe | watch/compare.go:88-149 | Every event takes the node from the checks last fetched to those of its round, as said of nodes and checks |
| NodeRun.RoundReports | watch/watch.go:313-350 | A round reports the departure once, on a moved index every check that changed its raw status once, and nothing else |
| NodeRun.MissingHeadline | watch/compare.go:88-104 | A node event's new status is missing if and only if the node left or lost its last check |
| NodeRun.SyncNodes | watch/watch.go:276-311 | A new list of nodes keeps the watches and the addresses in step with it and reports every node that was not watched, once; the first list reports none and is counted for readiness |
| NodeRun.StartNodes | watch/watch.go:282-299 | The loop starts and reports the new nodes one by one and takes the address of the last entry of each name |
| NodeRun.NewNodesOnce | watch/watch.go:282-299 | The nodes started are those listed and not watched, each once |
| NodeRun.ArrivalsSay | watch/watch.go:288-294 | An arrival takes the node of its place from missing to unknown |
| Startup.Readiness.ListArrived | watch/watch.go:116-122 | Counting a list and checking are one step |
| Startup.Readiness.ChildReady | watch/watch.go:124-129 | Counting a finished child and checking are one step |
| Startup.ReadyExactly | watch/watch.go:107-136 | In every interleaving, pending is announced less finished, and the channel is closed if and only if both lists arrived and every initial child was fetched, once |
| Startup.PendingMayBeNegative | watch/watch.go:124-129 | A child that finishes before its list is counted makes pending negative |
| Startup.Watches.Sync | watch/watch.go:181-204 | Afterwards exactly the listed names are watched, those that stayed by the same watch; exactly the channels of the others are closed, none twice |
| Stream.AfterValid | server/stream.go:43-88 | In every interleaving the accepted events are those written, in flight and buffered, in order, and equal the matching events up to the first drop |
| Stream.ChannelUsedOpen | server/stream.go:43-88 | No step sends on a closed channel or closes one twice, and a closed channel is never used again |
| Stream.StepsTake | server/stream.go:43-176 | A subscribed client takes a matching event there is room for; only the flag seen up, a closed channel seen empty or the end of the request end the reading; a ping changes nothing |
| Stream.EverythingWritten | server/stream.go:90-176 | With the flag down a reader left alone writes every accepted event |
| Stream.FlagSeen | server/stream.go:90-176 | With the flag up a reader left alone ends, unless it is caught up |
| Stream.CaughtUpWaits | server/stream.go:90-176 | A reader that is caught up waits, flag or not |
| Stream.NoEventPastDrop | server/stream.go:43-176 | What is written is a contiguous prefix of the matching events since the subscription and ends before the first drop, unless the reader was caught up when the flag first went up |
| Stream.FirstRaiseDecides | server/stream.go:43-176 | After the first raise of the flag no schedule writes past the drop if and only if the reader was not caught up then; later raises do not matter |
| Stream.CaughtUpWritesPastDrop | server/stream.go:53-57 | If it was caught up, the next matching event is written in the place of the dropped one |
| Stream.CatchingUpTakesAll | server/stream.go:53-57 | To catch up between the drop and the flag the reader must write everything the full channel held |
| Stream.AtOnceNeverCaughtUp | server/stream.go:53-57 | If no step comes between the drop and the flag, the reader is never caught up |
| Stream.DropOvertaken | server/stream.go:43-176 | A schedule from the subscription on in which a written event overtakes a dropped one |
| Hub.PublishIsMoves | server/stream.go:43-59 | What publishing does to one client is the offer and, after a drop, the raising of the flag |
| Hub.CloseIsMove | server/stream.go:61-88 | What closing and subscribing do to one client are the moves of the interleaving model |
| Hub.Hub.Publish | server/stream.go:43-59 | Every client gets a matching event or, with a full channel, the overflow flag; the others are left alone |
| Hub.Hub.Subscribe | server/stream.go:61-71 | A client of a closed hub starts with a closed channel and is not registered |
| Hub.Hub.Close | server/stream.go:80-88 | Every registered channel is closed once, and the hub stays empty |
| BatchWriter.PersistedExactly | storage/writer.go:90-112 | A batch is stored, dropped or abandoned exactly according to which of at most three attempts succeeds and when the context ends |
| BatchWriter.Writer.Persist | storage/writer.go:90-112 | The retry loop makes another attempt exactly after a failure within the context and a whole pause, at most three with doubling pauses, and ends as specified |
| BatchWriter.LaneAddsUp | storage/writer.go:26-112 | Everything received is stored, dropped, abandoned or pending, counted once |
| BatchWriter.BatchesAreSegments | storage/writer.go:39-50 | Batches are disjoint contiguous pieces of what was received, in order |
| BatchWriter.WriterConserves | storage/writer.go:26-88 | On every run what was received is the batches and what is pending, one after the other; between rounds less than a batch is pending, and after a cancellation nothing |
| BatchWriter.BatchesBounded | storage/writer.go:74-85 | Until a cancellation no batch exceeds the batch size |
| BatchWriter.RoundWrites | storage/writer.go:52-88 | A tick, a cancellation and an item that fills its queue write both queues; any other item only waits |
| BatchWriter.StoredByTick | storage/writer.go:26-88 | If the storage takes every batch, everything that reached the writer up to a tick is stored from then on, in order |
| BatchWriter.Writer.Run | storage/writer.go:26-88 | The main loop over any inputs gives the specified state; the storage holds the stored batches in order and the counters the dropped events |
| CursorCodec.DecodeEncode | storage/storage.go:64-78 | Unpadded base64url decodes what it encoded, for all bytes |
| CursorCodec.DecodesExactly | storage/storage.go:68-77 | A text decodes if and only if, line breaks aside, it is letters of the alphabet and not one more than whole groups of four |
| CursorCodec.ParseExactly | storage/storage.go:71-89 | A text is read as a cursor if and only if it is empty and the cursor the start, or it decodes to the milliseconds and the ID around a colon |
| CursorCodec.ParsePrint | storage/storage.go:64-89 | A printed cursor comes back with its time cut down to the millisecond and the same ID |
| CursorCodec.RoundTripExactly | storage/storage.go:64-89 | A cursor survives if and only if its time is a whole millisecond, and a zero time has a zero ID |
| CursorCodec.CutCursorSkips | storage/storage.go:61-89 | A cursor that comes back never goes back, and passes over an event past the original if and only if the cursor was cut and the event is in its millisecond, but not at its beginning with a smaller ID |
| CursorCodec.WireWalkStable | storage/storage.go:61-89 | Following printed cursors over changing states returns nothing twice, strictly newest first, and once a page is the last, of everything present at all pages exactly the events left behind between two pages are missing |
| CursorCodec.WholeMillisecondsNotSkipped | storage/storage.go:61-89 | At whole milliseconds, which the database keeps, no event is left behind, whatever changes between pages |
| CursorCodec.NothingSkippedExactly | storage/storage.go:61-89 | The events a store may hold are never skipped, whatever it holds when, if and only if none of them leaves another behind |
| CursorCodec.BatchCutLosesRest | storage/storage.go:64-69 | Of two events at one time that is not a whole millisecond, pages of one return the first and finish |
| CursorCodec.WirePagesCompleteExactly | storage/storage.go:61-89 | Over a store that does not change, printed cursors return every event for every page size if and only if no event leaves the next one behind, as said of their times and IDs |
| CursorCodec.FirstMillisecondStartsOver | storage/storage.go:61-69 | A cursor in the first millisecond of all comes back as the start |
| UrlState.ReadFilter | web/src/state.ts:48-63 | The steps of reading a filter give the specified parse |
| UrlState.FilterRoundTrip | web/src/state.ts:48-65 | A chip survives if and only if its field is known and its value is neither empty nor blank at an end; colons inside do not matter |
| UrlState.ParsedIs | web/src/state.ts:48-63 | Any text reads as nothing if blank, as a chip if and only if it is a known field in any case, a colon and a value not blank, and otherwise as a search for all of it but a dash |
| UrlState.RangeReads | web/src/state.ts:71-97 | What a serialised range, fractional presets and windows included, is read back as, the default where it cannot be |
| UrlState.RangeParsed | web/src/state.ts:82-97 | Any text reads as a positive preset, a window or ordered bounds, and an empty one as an hour |
| UrlState.RangeRoundTrip | web/src/state.ts:71-97 | A range survives if and only if it is a positive preset, a window, or ordered bounds at whole milliseconds |
| UrlState.IntegersFaithful | web/src/state.ts:71-97 | Whole numbers printed in decimal are numerals of the kind the ranges rest on |
| UrlState.WriteSearch | web/src/state.ts:118-130 | The loop over the filters and the options writes the specified parameters |
| UrlState.ReadState | web/src/state.ts:99-116 | The loop over the parameters reads the specified state |
| UrlState.StateRoundTrip | web/src/state.ts:99-130 | A view survives the URL if and only if it names its datacenter (or there is none to fall back on), its range is normal, and its filters are known chips followed by at most one non-empty text |

## Left out

- QueryCompiler.CompilerCorrect: on stored rows only, that is with the output cut as the insert cuts it, by characters where the code cuts bytes; JSON tag functions are taken to compare tags exactly, and a collation to fold one character at a time.
- Catalog.Aggregate: a nil check pointer, which crashes the original, cannot be written in the model.
- Watcher.Watcher.WatchService: the call that counts the first fetch for readiness is a step of `Startup`, not of this loop; a crash ends the model, not a process.
- WatchRun.RunReplays: assumes that a query returning at the index it was asked for has the content of the previous snapshot, which is what a blocking query promises for indexes of at least 1.
- WatchRun.RefreshSpaced: assumes one entry per instance in each snapshot; with duplicates of different fingerprints every refresh announces each.
- MysqlStore.Storage.StoreEvents: row IDs of the database are assumed to order rows of one time, not modelled as an auto-increment column; 64-bit overflow of IDs and counters is not modelled.
- MysqlHistogram.Histogram: of the statements the condition and the arguments are texts; the select list, grouping and inner select are given by what an answer to them is (`AnswersRollup`, `AnswersRows`).
- MysqlHistogram.DirectCountsRows: about the rows that the inner select returns, the newest up to the sample limit; when there are more, what the buckets hold is the sample and not an estimate of the rest.
- MysqlHistogram.RollupRefinesRows: for statuses that fit 64 bits, as all stored ones do, and a range that does not overflow durations. Row times are taken to be stored as they are: the column rounds to the millisecond, which can move a row that is not at a whole one out of its rollup minute. Rollup keys and groups compare exactly, conditions up to the collation; a database that folds names merges their counts.
- MysqlStore.Storage.Maintain: the calendar date of a partition is a day number; a partition for the first day of year 1 or earlier cannot exist; the order in which a bounded delete picks its entries is left open.
- MemoryStore.HistogramCovers: for ranges and numbers of buckets up to half of what 64 bits hold, which is 146 years; beyond that `BucketsExist`, `WideSpansCrash` and `OtherRanges` say what happens. So with MysqlHistogram.BucketsPlaced.
- MemoryStore.Storage.Since: the memory store's replay is modelled to its one-millisecond step; the database's replay is one query, answered like those of `MysqlEvents`, and is not modelled.
- CursorCodec.ParsePrint: for times whose millisecond count and IDs fit 64 bits, as all of the program's do.
- CursorCodec.WireWalkStable: for such times and IDs, and times outside the first millisecond of year 1, whose cursors start over.
- UrlState.RangeReads: a number is any real with a printed form that is read back, as the finite numbers of JavaScript are; infinities and not-a-number are not modelled.
- UrlState.StateRoundTrip: percent-encoding of the query string is the browser's, and lower-casing is only assumed to leave the known field names alone.
- Stream.NoEventPastDrop: about the live events only; the replay from storage that precedes them and the text of the frames are not modelled, nor is an event that cannot be encoded, which the original skips.
- Facets, suggestions, datacenter lists, instance look-up: counting and listing loops that would add only easy members.
- Locks around the memory store: its methods are single steps.
- Consul RPC, leader locks, the distributed and metrics wrappers, HTTP handlers, flags, logging, tickers, JSON, React components: libraries and plumbing.
- The FNV fingerprint: any function of the registration's profile, with no claim that different profiles differ.
- Shifting and zooming ranges, time-zone parsing and formatting in the web interface.
