# Percept: a verified model of the event store

Percept takes events from producers, numbers them in a single normalizer, and fans them out to
several stores that must then agree with each other: a SQLite cold store with a `latest` table,
in-memory hot rings, a vector index mirrored in memory, and a forwarder that sends an edge's
events on to a hub. This project models that logic in Dafny and proves what its parts promise,
for every input, every run and every interleaving.

How the modules fit together:

- `Prelude`, `Events`, `Sorting`, `Text` hold shared vocabulary: fixed-width integer behaviour,
  events and their `(ts, event_id)` keys, a stable sort, decimal text.
- `ColdTable`, `ColdStore`, `ColdHistory`, `ColdReplay`: the cold store's tables, its methods, whole
  runs of appends and sweeps against everything ever appended, and the object driven through them.
- `Retention`, `SweepLaws`, `SweepPlan`, `SweepPass`, `SweepOutcome`, `Sweeper`, `SweepInterleaved`,
  `Dangling`: policy resolution, how the three sweeps of a pair compose, one whole pass over both stores
  and what it removes told from the policies alone, a pass among appends, and the vectors a pass parts
  from their events.
- `Cursor`, `Window`: canonical cursor bytes, pages, and scans that follow cursors while the store
  changes.
- `Calendar`: the `day` column.
- `VectorIndex`, `VectorProtocol`, `VectorSearch`, `VectorAnswers`: the table and its mirror, their
  lock-delimited steps in any interleaving with restarts, top-k search, and what a search after any such
  run says of the stored records.
- `HotRing`, `Normalizer`, `BatchFlush`, `ColdWriter`, `Client`, `Ingest`, `Forwarder`,
  `CrossNode`, `Delivery`, `Arrival`: the pipeline from producer to hub.
- `Topic`, `Csv`: MQTT topic filters and templates, and the CSV row decoder.

Objects the program updates in place are classes here, and their methods are proved against
functions; the laws are lemmas about those functions and about runs built from them. The main laws say
what they mean in ghost predicates of their own, field by field, not through the functions the methods
are built from. An event id is a natural number (a ULID is a 128-bit number, and its text sorts as the
number does). A payload is JSON text; the byte budget charges it its length in characters, as `LENGTH`
does.

## Findings

Where an intuitive claim is false of the code, the code is kept and the exact condition is proved.

- A dry run of the sweeper adds the three demands of a pair while the real sweep removes their
  maximum: with a non-negative count limit it is exact precisely when at most one demand is non-zero
  (`SweepLaws.DryRunOverPredicts`, `SweepLaws.DryRunCountsTwice`). With a negative one it predicts
  more rows than there are (`SweepLaws.NegativeCountOverstates`).
- The sweeper lists pairs from the cold store alone, so the vectors of a pair that has no cold row
  left are never swept, however old (`SweepPass.FinishedVectors`, `SweepPass.OrphanOutlivesEveryPass`).
- An append that falls between the two halves of a vector sweep covering it can be stored and yet be
  missing from searches until the index is reopened (`VectorProtocol.OverlapCanHideARow`). Avoiding
  such sweeps is exactly what an append needs (`VectorProtocol.AppendSafeExactlyWhen`,
  `VectorProtocol.SafeRunsStayInStep`).
- The startup check compares the two ages entry by entry. A checked list lets vectors outlive events
  exactly when some entry wins the age of a pair and either no entry sets a vector age there or a
  different one wins it with a longer age (`Retention.OutliveExactlyWhen`); this can be decided for all
  pairs at once on the names in the list (`Retention.SafeEverywhereExactlyWhen`).
- `docs/DESIGN.md:167` and `crates/store/src/retention/sweeper.rs:10-12` say that vectors go with their
  events. Besides such ages, a count limit and a byte limit leave vectors behind too; with neither of
  these and safe ages no pass does (`Dangling.CanDangleExactlyWhen`, `Dangling.DanglesExactlyWhen`).
- The comment at `crates/percept/src/config/mod.rs:92-95` says the check has already read every
  duration; it reads them only where both are set (`Retention.CheckedEntryBuildsExactlyWhen`).
- Entries of a hot ring need not be fresh when ingest times run backwards
  (`HotRing.PushCleansExactlyWhen`, `HotRing.StaleEntryCanHide`).
- A forwarder counts a batch whose last attempt found the bus full as dropped, though a part of it is
  on the hub's bus. The count is off exactly when a batch failed after some attempt at it had passed
  the hub's checks and found room (`Delivery.DroppedAgainstReached`, `Delivery.OvercountHappens`).
- `day_of` truncates towards zero: before 1970 it names the following day, except at midnight
  (`Calendar.DayIndexIsUtcDay`).
- The comment at `crates/store/src/cold/store.rs:358-359` says the byte sweep drops from the newest
  down; the code keeps the newest rows that fit and drops the older ones (`ColdStore.Condemned`).
- `crates/client/src/error.rs:31-33` documents `RetriesExhausted` as the result of persistent 429
  or 503; the code returns it only when no attempt is configured (`Client.ExhaustedOnlyWithoutAttempts`).
- Two peers can produce the same prefixed source id exactly when one name continues the other
  after a dot (`Forwarder.PeersCollideExactlyWhen`).
- A window limit of zero ends a scan at once, complete only if nothing matches (`Window.LimitZeroIsComplete`).
- The comment at `crates/ingest/src/mqtt/decode.rs:73-74` says there is no escape; the code does read a
  doubled quote as one. Unquoted CSV fields survive exactly when they hold no comma and do not begin
  with a quote; a quote further in is harmless (`Csv.RoundTripExactlyWhen`).

## Model

| member | source | states |
|---|---|---|
| `ColdStore.ColdStore.Append` | crates/store/src/cold/store.rs:78-181 | insert-or-ignore, batch collapse and conditional upsert leave the two tables that inserting and upserting the events one at a time, in order, would leave; a new id's row has every field of the first event that brought it, a missing ingest time read as its ts |
| `ColdStore.ColdStore.InsertEvents` | crates/store/src/cold/store.rs:84-117 | INSERT OR IGNORE event by event, so the first event of an id stays, with every field it came with |
| `ColdStore.CollapseBatch` | crates/store/src/cold/store.rs:139-153 | the loop keeps, per pair, the first of the batch's newest events |
| `ColdStore.ColdStore.UpsertNewest` | crates/store/src/cold/store.rs:154-177 | conditional upserts of the candidates come to the same table in any order |
| `ColdStore.CollapseRefines` | crates/store/src/cold/store.rs:139-178 | collapsing a batch to one candidate per pair before upserting equals upserting every event |
| `ColdReplay.LatestAfter` | crates/store/src/cold/store.rs:185-197 | after any run of appends and sweeps on the object, `latest` answers with every field of the first-arrived of the pair's newest events, and with nothing exactly if there was none |
| `ColdReplay.Perform` | crates/store/src/cold/store.rs:78-404 | each operation on the object has the effect that whole-run statements ascribe to it, and a sweep reports the rows it removed |
| `ColdReplay.Replay` | crates/store/src/cold/store.rs:53-404 | the object driven through a run holds the two tables of that run |
| `ColdStore.ColdStore.CountForPair` | crates/store/src/cold/store.rs:287-295 | the count is the length of the pair's ordered row list |
| `ColdStore.ColdStore.SweepMaxAge` | crates/store/src/cold/store.rs:300-323 | removes (or counts) exactly the leading rows older than the cutoff |
| `ColdStore.ColdStore.SweepMaxCount` | crates/store/src/cold/store.rs:328-356 | removes exactly the oldest surplus; the dry run's number differs only for a negative limit |
| `ColdStore.ColdStore.SweepMaxBytes` | crates/store/src/cold/store.rs:360-404 | removes exactly the oldest rows at which the saturating sum from the newest exceeds the budget |
| `ColdStore.Condemned` | crates/store/src/cold/store.rs:380-387 | the summing loop condemns a prefix of the row list, of the size the budget calls for |
| `ColdTable.InsertAllKeeps` | crates/store/src/cold/store.rs:84-117 | stored rows never change on append, every appended id is stored afterwards, and a new row reads back as an event of the batch |
| `ColdTable.FirstsStay` | crates/store/src/cold/store.rs:84-117 | a new id's row reads back, field by field, as the first event of the batch with that id |
| `ColdTable.DropOldestRows` | crates/store/src/cold/store.rs:328-404 | dropping the n oldest rows of a pair cuts exactly n from the front of its list |
| `ColdTable.OtherPairUntouched` | crates/store/src/cold/store.rs:300-404 | a sweep of one pair leaves every other pair's rows |
| `ColdTable.DropTwice` | crates/store/src/retention/sweeper.rs:78-101 | two successive drops are one drop of the sum |
| `ColdTable.ExpiredAfterDrop` | crates/store/src/cold/store.rs:300-323 | once n rows are gone the age sweep wants n fewer |
| `ColdTable.OversizeAfterDrop` | crates/store/src/cold/store.rs:360-404 | once n rows are gone the byte sweep wants n fewer |
| `ColdTable.OlderRowsLead` | crates/store/src/cold/store.rs:300-323 | the rows older than a cutoff are the leading rows of the list |
| `ColdHistory.LatestIsFirstNewest` | crates/store/src/cold/store.rs:119-178 | after any appends and sweeps, however batched, `latest` reads back as the first-arrived event with the greatest ts ever appended to the pair, and is present exactly if there was one |
| `ColdHistory.LatestDominatesStored` | crates/store/src/cold/store.rs:119-178 | `latest` is never older than a stored row of its pair |
| `ColdHistory.StoredFromHistory` | crates/store/src/cold/store.rs:84-117 | every stored row reads back as an appended event |
| `ColdHistory.NewestStored` | crates/store/src/cold/store.rs:300-404 | when ids determine events, the newest stored time is the newest appended since the pair was last empty |
| `ColdHistory.LatestAgreesWithRows` | crates/store/src/cold/store.rs:119-178 | newest row and `latest` show the same time if and only if that time was appended since the pair was last empty |
| `ColdHistory.LatestEqualsNewestRow` | crates/store/src/cold/store.rs:119-178 | equality for a pair never swept empty |
| `ColdHistory.ReappendChangesNothing` | crates/store/src/cold/store.rs:78-181 | re-appending a stored event, anywhere in a batch, changes neither table |
| `Retention.SelectMatching` | crates/store/src/retention/policy.rs:80-88 | the matching policies, in config order |
| `Retention.ResolveEffective` | crates/store/src/retention/policy.rs:80-111 | sort by tier, then first-set-wins, dimension by dimension |
| `Retention.ResolutionPicksWinner` | crates/store/src/retention/policy.rs:80-111 | each dimension is what the first applicable policy that sets it gives, naming a source before naming a kind before neither, then config order, in whole milliseconds up to the machine's limit; unset exactly if no applicable policy sets it |
| `Retention.MatchesExactlyWhen` | crates/store/src/retention/policy.rs:23-49 | a policy applies if and only if a named source is the event's and a named kind is the event's kind or the name before its first `@` |
| `Retention.ReadsExactlyWhen` | crates/percept/src/config/mod.rs:121-150 | a text reads as a duration if and only if it is, blanks around it aside, decimal digits and one of s, m, h, d, with seconds that fit 64 bits, and then it is that many seconds |
| `Retention.CheckRetention` | crates/percept/src/config/validate.rs:37-53 | accepts exactly the lists whose every entry is selective and, if it sets both ages, has readable ones with vector age at most max age; else names the first offender |
| `Retention.BuildPolicies` | crates/percept/src/config/mod.rs:96-119 | one policy per entry in order, with the entry's own names, counts and bytes and its ages read, exactly when every age given is readable; else names the first that is not |
| `Retention.CheckedEntryBuildsExactlyWhen` | crates/percept/src/config/mod.rs:92-119 | a checked entry builds unless it sets one age only and that one is unreadable; what is built keeps the check's promise |
| `Retention.UnreadableAgeSlipsThrough` | crates/percept/src/config/validate.rs:41-52 | a one-sided entry whose age lacks its unit passes the check and fails to build |
| `Retention.OutliveExactlyWhen` | crates/percept/src/config/validate.rs:37-53 | a checked list lets vectors outlive the events of a pair if and only if some entry wins the age there and either none sets a vector age or a different entry wins that with a longer one |
| `Retention.SafeEverywhereExactlyWhen` | crates/store/src/retention/policy.rs:80-111 | any list keeps vectors from outliving events by age for all pairs if and only if it does so for the sources and kinds it names and one fresh name of each |
| `Retention.VectorsNeverOutlive` | crates/percept/src/config/validate.rs:37-53 | checked entries that set both ages or neither never resolve to vectors outliving events |
| `Retention.OneSidedEntryCanOutlive` | crates/percept/src/config/validate.rs:37-53 | a checked entry that sets only a vector age of at least a millisecond, or only a max age below the millisecond cap, has a checked partner with which the vector age exceeds the max age |
| `Retention.OneSidedUnsafeExactlyWhen` | crates/percept/src/config/validate.rs:37-53 | a checked one-sided entry takes part in an unsafe resolution of a pair it matches if and only if it is not a vector age below a millisecond; a max age alone is unsafe by itself |
| `SweepLaws.SweepsComposeToMax` | crates/store/src/retention/sweeper.rs:78-101 | age, count and byte sweeps in turn remove exactly the oldest max(a, c, b) rows and report that number |
| `SweepLaws.SweepIdempotent` | crates/store/src/retention/sweeper.rs:78-101 | a second sweep at the same time finds nothing |
| `SweepLaws.DryRunOverPredicts` | crates/store/src/retention/sweeper.rs:78-101 | the dry run never under-predicts, and is exact if and only if at most one dimension asks for anything |
| `SweepLaws.DryRunCountsTwice` | crates/store/src/retention/sweeper.rs:78-101 | an expired event over a count limit of zero is predicted twice and removed once |
| `SweepLaws.NegativeCountOverstates` | crates/store/src/cold/store.rs:328-341 | with a negative limit the prediction exceeds the rows there are |
| `SweepLaws.WarningsInOrder` | crates/store/src/retention/sweeper.rs:82-101 | each warning counts the rows the earlier sweeps left |
| `SweepPlan.PassGoesOn` | crates/store/src/retention/sweeper.rs:69-121 | executing one more line of a plan keeps stores, totals, per-pair list and warnings right |
| `SweepPass.LineUnchanged` | crates/store/src/retention/sweeper.rs:69-108 | what a pass decides for a pair in mid-pass is what it would have decided at the start, whatever was visited before |
| `SweepPass.RoundKeepsPass` | crates/store/src/retention/sweeper.rs:69-121 | one round takes a pass with pairs still to do to one with that pair done |
| `SweepPass.FinishedRows` | crates/store/src/retention/sweeper.rs:56-124 | after a pass every pair has lost exactly its oldest max(a, c, b) rows |
| `SweepPass.FinishedVectors` | crates/store/src/retention/sweeper.rs:68-108 | a vector goes if and only if its pair has a cold row, an age, and the vector is past it |
| `SweepPass.OrphanOutlivesEveryPass` | crates/store/src/retention/sweeper.rs:68-108 | a store without cold events and with any one vector, of any age, is left as it is by a pass under any policies |
| `SweepOutcome.RowGoesExactlyWhen` | crates/store/src/retention/sweeper.rs:56-124 | from the policies alone: a pass removes a row if and only if it is older than the age in force for its pair, or it and the newer rows of the pair outnumber the count in force or outweigh the bytes in force |
| `SweepOutcome.VectorGoesExactlyWhen` | crates/store/src/retention/sweeper.rs:68-108 | and a vector if and only if its pair has a cold row and it is older than the vector age in force |
| `Dangling.DanglesExactlyWhen` | crates/store/src/retention/sweeper.rs:78-108 | a pass parts a vector from its stored event if and only if the event is among its pair's rows to go and the vector has no age or has not reached it |
| `Dangling.SafeSettingsKeepTogether` | crates/store/src/retention/sweeper.rs:78-108 | without a count limit, without a byte limit below the top of the scale, and with ages that do not let vectors outlive events, no pass parts a vector from a stored event of the same pair and time |
| `Dangling.CanDangleExactlyWhen` | crates/store/src/retention/sweeper.rs:78-108 | some pass parts a pair's vector from its event if and only if the pair has a count limit, or a byte limit below the top of the scale, or ages that let vectors outlive events |
| `Sweeper.AgeStep` | crates/store/src/retention/sweeper.rs:78-81 | the age dimension of one pair, real or dry |
| `Sweeper.CountStep` | crates/store/src/retention/sweeper.rs:82-91 | the count dimension, with its warning |
| `Sweeper.BytesStep` | crates/store/src/retention/sweeper.rs:92-101 | the byte dimension, with its warning |
| `Sweeper.SweepPair` | crates/store/src/retention/sweeper.rs:75-101 | reports max(a, c, b) when real and a + c + b when dry, and changes the store accordingly |
| `Sweeper.VectorStep` | crates/store/src/retention/sweeper.rs:103-108 | removes (or counts) the pair's vectors past their age, and keeps table and mirror in step |
| `Sweeper.Round` | crates/store/src/retention/sweeper.rs:70-120 | one turn of the loop executes the pair's line and records it |
| `Sweeper.SweepAll` | crates/store/src/retention/sweeper.rs:56-124 | in any visiting order: stores cut by the whole plan, every touched pair listed once with its numbers, totals exact, every warning once |
| `SweepInterleaved.RunPass` | crates/store/src/retention/sweeper.rs:68-121 | the object under a pass with appends between any two sweeps: the reported total is exactly the number of rows removed |
| `SweepInterleaved.RowsBalance` | crates/store/src/retention/sweeper.rs:68-121 | in every such run: rows at the end + total = rows at the start + rows added |
| `SweepInterleaved.SweepTakesItsOldest` | crates/store/src/cold/store.rs:300-404 | each sweep removes the oldest rows its dimension asks for at that moment, then asks for none, and leaves other pairs alone |
| `SweepInterleaved.GoneMeansTaken` | crates/store/src/retention/sweeper.rs:68-121 | a row stays as it is until some sweep of its own pair takes it among the oldest |
| `SweepInterleaved.UnbrokenStepsCompose` | crates/store/src/retention/sweeper.rs:78-101 | without appends in between, the steps of a pair remove and report the oldest max(a, c, b) rows |
| `Cursor.HashList` | crates/store/src/cold/cursor.rs:101-107 | a sorted, length-prefixed list is fed to the hasher |
| `Cursor.HashInput` | crates/store/src/cold/cursor.rs:88-114 | the bytes fed piece by piece are the canonical string |
| `Cursor.CanonicalLayout` | crates/store/src/cold/cursor.rs:88-114 | the bytes are the domain, start and end as 64-bit two's complement and the limit as 32 bits, all little-endian, then both filters: the number of globs and the globs in byte order, each after its length, lengths saturating at 32 bits |
| `Cursor.CanonicalExactlyEquivalent` | crates/store/src/cold/cursor.rs:88-114 | same canonical string if and only if start, end and limit agree and the globs agree as multisets, absent counting as empty |
| `Window.EquivalentScansSame` | crates/store/src/cold/store.rs:219-261 | equivalent requests select the same page |
| `Window.QueryGivesGoodPage` | crates/store/src/cold/store.rs:219-261 | for any limit: a page is ascending, within the limit and 10 000 rows, beyond the anchor, each row inside the time range and its source and kind matched by some glob asked for, and no such row is skipped |
| `Window.CallEndsExactlyWhen` | crates/percept/src/mcp/tools.rs:284-348 | which error a call ends with for which arguments, checked in the source's order; otherwise a page for the limit asked, 10 000 by default and at most, and a cursor at its last row if and only if it is full and not empty |
| `Window.TagResumes` | crates/store/src/cold/cursor.rs:61-74 | a cursor is honoured if and only if the requests are equivalent, else refused as a filter mismatch |
| `Window.ReadContinues` | crates/percept/src/mcp/tools.rs:284-348 | a read continues exactly where the scan stood, for the scan's first request |
| `Window.ScanIsComplete` | crates/percept/src/mcp/tools.rs:284-348 | under any interleaved appends and sweeps, keys strictly increase, and a finished scan returned exactly once every row present at each read that lies in the time range and is matched by the globs asked for |
| `Window.StaticScan` | crates/percept/src/mcp/tools.rs:284-348 | on an unchanging store the pages concatenate to exactly the stored rows asked for, in order, in exactly n / limit + 1 calls |
| `Window.LimitZeroIsComplete` | crates/percept/src/mcp/tools.rs:295-342 | limit zero ends at once, complete if and only if nothing matches |
| `Calendar.CivilDateCountsDays` | crates/store/src/cold/store.rs:469-486 | every day number an i64 timestamp reaches gets a valid Gregorian date, and the next number the next date |
| `Calendar.EveryTimestampHasADate` | crates/store/src/cold/store.rs:460-486 | every i64 timestamp gets a valid date, the one its day number counts up to |
| `Calendar.EpochIsDayZero` | crates/store/src/cold/store.rs:469-486 | day zero is 1970-01-01 |
| `Calendar.CivilDateInverts` | crates/store/src/cold/store.rs:469-486 | counting days up to the date gives the day number back |
| `Calendar.CivilDateOnto` | crates/store/src/cold/store.rs:469-486 | every valid date in range is produced by its own day number |
| `Calendar.LaterDayLaterDate` | crates/store/src/cold/store.rs:469-486 | later days get later dates |
| `Calendar.SpotOfValid` | crates/store/src/cold/store.rs:471-480 | era, year of era and day of year are in range and stand for the day, in both era signs |
| `Calendar.YearOfEraInverts` | crates/store/src/cold/store.rs:477-480 | the year-of-era formula inverts the start of each year |
| `Calendar.DayIndexIsUtcDay` | crates/store/src/cold/store.rs:460-467 | the key names the UTC day if and only if the timestamp is non-negative or at midnight; else the following day |
| `Calendar.DayKeysSort` | crates/store/src/cold/store.rs:460-467 | from 1970 through 9999 the text keys sort in time order |
| `Calendar.DayKeyReadsBack` | crates/store/src/cold/store.rs:460-467 | for every i64 timestamp the key is year, month and day of its date in decimal between two dashes, the year filled to four places, month and day to two |
| `VectorIndex.LoadRows` | crates/store/src/vector/index.rs:340-395 | the loading loop yields all rows, or a decoding error if any row has one, or the mismatch of the first row |
| `VectorIndex.LoadAgrees` | crates/store/src/vector/index.rs:340-395 | rows loaded in any order show exactly the table's records, vector included |
| `VectorIndex.VectorIndex.Commit` | crates/store/src/vector/index.rs:140-161 | the table after insert-or-replace of the records in order |
| `VectorIndex.PutAllHolds` | crates/store/src/vector/index.rs:140-161 | after a commit the last record of each id in the batch is stored as it came, and other ids are as they were |
| `VectorIndex.VectorIndex.Mirror` | crates/store/src/vector/index.rs:163-188 | in-place replacement or push, record by record |
| `VectorIndex.VectorIndex.Append` | crates/store/src/vector/index.rs:136-190 | uninterrupted, it stores the last record of each id and keeps every mirrored row showing its record's id, source, kind, ts, truncated flag and vector |
| `VectorIndex.VectorIndex.Delete` | crates/store/src/vector/index.rs:205-226 | deletes (or counts) the expired rows of the pair |
| `VectorIndex.VectorIndex.Prune` | crates/store/src/vector/index.rs:227-232 | retains exactly the unexpired mirror rows, in order |
| `VectorIndex.VectorIndex.SweepMaxAge` | crates/store/src/vector/index.rs:205-234 | uninterrupted, it keeps exact agreement and reports the rows removed |
| `VectorIndex.AppendKeepsAgreement` | crates/store/src/vector/index.rs:136-189 | commit followed by mirror update preserves agreement, duplicate ids in a batch included |
| `VectorIndex.SweepKeepsAgreement` | crates/store/src/vector/index.rs:205-234 | delete followed by prune preserves agreement |
| `VectorProtocol.QuietMirrorAgrees` | crates/store/src/vector/index.rs:136-234 | in every run of lock-delimited steps, whenever nothing is in flight: unique ids, every mirrored row shows the table's record of that id field by field, and a missing row is older than the cutoff of a finished sweep of its pair |
| `VectorProtocol.SafeRunsStayInStep` | crates/store/src/vector/index.rs:136-234 | in every run, however operations overlap, in which no append stores anything that a sweep between its halves covers: whenever nothing is in flight, table and mirror agree exactly |
| `VectorProtocol.AppendSafeExactlyWhen` | crates/store/src/vector/index.rs:136-234 | at any point of any run, an append avoids all sweeps in flight if and only if, however what is in flight then finishes, all it stored is mirrored |
| `VectorProtocol.UnsafeAppendCanHide` | crates/store/src/vector/index.rs:222-232 | a record that such a sweep covers can end up stored and unmirrored, from any state |
| `VectorProtocol.SessionsStayUniform` | crates/store/src/vector/index.rs:124-134 | in every history all stored vectors share one model and dimension, and searches meet only the running dimension |
| `VectorProtocol.OpenSucceedsExactlyWhen` | crates/store/src/vector/index.rs:340-395 | checking the first row read accepts if and only if every stored row fits the embedder |
| `VectorProtocol.WholeOpsStayInStep` | crates/store/src/vector/index.rs:136-234 | in every history of opens, appends and sweeps that never overlap, table and mirror agree exactly |
| `VectorProtocol.ReopenLoadsTheSameRows` | crates/store/src/vector/index.rs:124-134 | after such a history, reopening succeeds and loads the very rows in memory |
| `VectorProtocol.OverlapCanHideARow` | crates/store/src/vector/index.rs:227-232 | a legal run, for any record, after which it is stored but not mirrored |
| `VectorProtocol.BuildRecords` | crates/store/src/vector/task.rs:171-219 | one record per buffered event, in order, all of the session's own model and dimension |
| `VectorSearch.WorstIndex` | crates/store/src/vector/index.rs:298-307 | the first of the lowest-scoring hits |
| `VectorSearch.InsertTopK` | crates/store/src/vector/index.rs:293-311 | keeps the best k of everything offered; a full heap gives up its first worst hit, and only to a strictly better one |
| `VectorSearch.SearchKn` | crates/store/src/vector/index.rs:238-290 | min(k, matches) hits, descending, and nothing omitted beats anything returned |
| `VectorSearch.ResultRowsDistinct` | crates/store/src/vector/index.rs:238-290 | no row twice, every hit a matching row with its score |
| `VectorSearch.TopKScoresUnique` | crates/store/src/vector/index.rs:284-289 | any two descending top-k lists show the same scores |
| `VectorSearch.OnePassRefinesSortThenTake` | crates/store/src/vector/index.rs:238-311 | same scores as sorting everything and taking k, and the same hits when scores are distinct |
| `VectorAnswers.SearchAfter` | crates/store/src/vector/index.rs:238-290 | after any quiet run a hit is a stored record inside the filter with the similarity of its own vector; after a safe run the hits are the best k of all stored records inside the filter |
| `HotRing.HotRings.Push` | crates/store/src/hot_ring.rs:60-103 | the pair's new ring, the eviction balance, and no other ring changed |
| `HotRing.HotRings.Latest` | crates/store/src/hot_ring.rs:107-113 | the ring's last entry, if any |
| `HotRing.SnapshotAfter` | crates/store/src/hot_ring.rs:117-127 | after any run of pushes a reader sees the newest of the pair's own pushes, no more than allowed, and with monotone clocks the longest suffix within both limits |
| `HotRing.LatestAfter` | crates/store/src/hot_ring.rs:107-113 | the latest event is the pair's last push, and a last push that is fresh is never missed |
| `HotRing.RingIsSuffix` | crates/store/src/hot_ring.rs:60-103 | whatever the clocks do, the ring is a suffix of its push history, short enough, with a front no older than `max_age` |
| `HotRing.RingIsLongestFit` | crates/store/src/hot_ring.rs:60-103 | with monotone clocks it is exactly the longest suffix within the number and with ages up to `max_age` |
| `HotRing.CutoffIsAge` | crates/store/src/hot_ring.rs:88-101 | an entry survives the cutoff if and only if its age at now is at most `max_age`, saturating arithmetic and missing ingest times included |
| `HotRing.NothingExpiresAtTheBottom` | crates/store/src/hot_ring.rs:91-101 | before 1970, when subtracting `max_age` would leave the machine's integers, nothing expires |
| `HotRing.LongestFitExactlyWhen` | crates/store/src/hot_ring.rs:60-103 | whatever the clocks did, it is that suffix if and only if its entries are fresh and the entry before them is one too many or stale |
| `HotRing.PushCleansExactlyWhen` | crates/store/src/hot_ring.rs:81-101 | after a push every entry is fresh if and only if, among those that fit by number, no stale entry stands behind a fresh one |
| `HotRing.RingsAreIndependent` | crates/store/src/hot_ring.rs:60-103 | a ring depends on its own pair's pushes alone |
| `HotRing.StaleEntryCanHide` | crates/store/src/hot_ring.rs:91-101 | such a ring is reached by two pushes |
| `Normalizer.NormalizerTask.Assign` | crates/ingest/src/normalizer.rs:117-157 | the completed event, field by field, and the source's incremented number |
| `Normalizer.NormalizerTask.FanOut` | crates/ingest/src/normalizer.rs:77-111 | each configured sink that is meant to get the event has it at its queue's end if open with room, and else counts it, as a full drop only when open and at its depth, as a closed drop only when closed; no other sink changes |
| `Normalizer.NormalizerTask.Handle` | crates/ingest/src/normalizer.rs:72-115 | one turn: number, push to the hot ring, fan out |
| `Normalizer.SequenceHasNoGaps` | crates/ingest/src/normalizer.rs:117-157 | in every run each source's stream carries 1, 2, 3, ... |
| `Normalizer.StreamIsReceived` | crates/ingest/src/normalizer.rs:117-157 | in every run the stream is what was received, in order, each event completed and numbered by how many of its source came up to it |
| `Normalizer.FanOutAccounts` | crates/ingest/src/normalizer.rs:77-111 | eligible = enqueued + full drops + closed drops, queues within depth, each sink an in-order part of what it was eligible for |
| `Normalizer.AllDeliveredExactlyWhen` | crates/ingest/src/normalizer.rs:77-111 | in every run a sink has got all events meant for it if and only if none of them met it closed or with as many waiting as it was configured to hold |
| `Normalizer.SinkOrder` | crates/ingest/src/normalizer.rs:72-157 | per source, numbers strictly increase at every sink |
| `BatchFlush.BatchesPartitionInput` | crates/store/src/vector/task.rs:135-169 | for every interleaving, batches and buffer concatenate to the input, batches hold 1 to max(1, size) items, nothing is left right after a tick or at exit |
| `BatchFlush.FlushesExactlyWhen` | crates/store/src/vector/task.rs:135-169 | a wake-up flushes all that is held if and only if a receive has filled the buffer, or a tick or the close finds anything in it; else all of it stays |
| `BatchFlush.ShortBatchesOnTimer` | crates/store/src/vector/task.rs:135-169 | every batch of a run stems from such a wake-up, and one shorter than max(1, size) from a tick or the close |
| `ColdWriter.CommittedOrLost` | crates/store/src/cold/writer.rs:162-183 | every flushed event is committed or counted dropped |
| `ColdWriter.ColdWriterTask.FlushBuffer` | crates/store/src/cold/writer.rs:162-183 | counters and tables after a commit or a failed one |
| `ColdWriter.ColdWriterTask.OnWake` | crates/store/src/cold/writer.rs:133-159 | one turn of the select loop |
| `ColdWriter.ColdWriterTask.Run` | crates/store/src/cold/writer.rs:125-183 | committed + dropped + buffered = received, the tables hold exactly what was committed, nothing buffered at exit |
| `Client.SendBatch` | crates/client/src/client.rs:90-175 | the async loop computes the exchange: result, waits and number of requests |
| `Client.SendBatchBlocking` | crates/client/src/blocking.rs:44-122 | the blocking loop computes the same exchange |
| `Client.ExchangeStopsAtFirstVerdict` | crates/client/src/client.rs:106-168 | one wait per retried reply, as its header or the default says and never beyond the cap, and then the result that status and shed reason of the first final reply lead to |
| `Client.VerdictExactlyWhen` | crates/client/src/client.rs:127-168 | each error and success for exactly these statuses, shed reasons and attempts left |
| `Client.BacksOffExactlyWhen` | crates/client/src/client.rs:131-154 | which replies are retried, and the wait: the seconds in the header, blanks around them aside, or the default, capped |
| `Client.OkExactlyWhen` | crates/client/src/client.rs:106-175 | an exchange returns n if and only if some attempt is answered with success and n, and every earlier one with a call to retry |
| `Client.ExhaustedOnlyWithoutAttempts` | crates/client/src/client.rs:106-175 | `RetriesExhausted` if and only if zero attempts are configured |
| `Text.ParsePrinted` | crates/client/src/client.rs:187-194 | a printed number parses back |
| `Text.ParsesExactlyWhen` | crates/client/src/client.rs:187-194 | a text parses to a number if and only if it is decimal digits of that value after at most one plus sign, and fits 64 bits |
| `Ingest.IngestBatch` | crates/ingest/src/http.rs:79-155 | which refusal for which failing check, nothing enqueued then; otherwise the longest prefix the bus took, and the reply that says so |
| `Ingest.BackoffUnderstood` | crates/ingest/src/http.rs:169-183 | the client waits what the server asked for, up to its cap |
| `Ingest.ObjectionAtClient` | crates/ingest/src/http.rs:98-127 | the first event out of scope or too large decides: the client ends with a scope or size error, or on its last attempt with a bad request, and nothing is enqueued |
| `Ingest.AnswerAtClient` | crates/ingest/src/http.rs:79-155 | what the client makes of every other answer: unauthorized, a bad request for an unreadable or empty batch, a wait of the named seconds for a rate limit or full bus, the default wait for a closed one, a bad request or server error on the last attempt, and the batch size when every send succeeded |
| `Ingest.SuccessExactlyWhenEnqueued` | crates/ingest/src/http.rs:133-155 | the answer is 200 if and only if the whole of a non-empty batch was enqueued, and it then reports the batch's size |
| `Ingest.EnqueuesExactlyWhen` | crates/ingest/src/http.rs:98-151 | something of a batch is enqueued if and only if every check lets it through and the bus takes its first event |
| `Forwarder.PeersCollideExactlyWhen` | crates/percept/src/forwarder.rs:161-176 | two peers can share a prefixed id if and only if one name continues the other after a dot |
| `Forwarder.PrefixInjective` | crates/percept/src/forwarder.rs:161-176 | for dot-free peers the prefixed id determines peer and source |
| `Forwarder.ForwarderBalance` | crates/percept/src/forwarder.rs:133-156 | forwarded + dropped = sent if and only if the hub never claims more than it was sent |
| `Forwarder.ForwarderTask.FlushBuffer` | crates/percept/src/forwarder.rs:133-156 | counters after a success, full or partial, and after an error |
| `Forwarder.ForwarderTask.OnWake` | crates/percept/src/forwarder.rs:105-131 | one turn of the select loop on prefixed events |
| `Forwarder.ForwarderTask.Run` | crates/percept/src/forwarder.rs:99-156 | forwarded + dropped + buffered = received if and only if the hub was honest |
| `CrossNode.ForwardedRowIsImage` | crates/percept/src/forwarder.rs:133-176 | a hub row made from an edge event has its id, prefixed source, kind, ts, payload, producer and trace id, no links, and a number and ingest time of the hub |
| `CrossNode.AtMostOneRowPerEdgeEvent` | crates/store/src/cold/store.rs:78-181 | in every run of sends, retries, partial acceptance, lost replies, drops, failed commits and sweeps, at most one row per edge event, and at most one edge event per row |
| `CrossNode.RegisteredRowsAreForwarded` | crates/ingest/src/normalizer.rs:117-157 | a row under an edge event's id was made from that event |
| `CrossNode.HubLatestIsImage` | crates/store/src/cold/store.rs:119-178 | `latest` on the hub shows the same image |
| `CrossNode.RetriedDuplicateIsHarmless` | crates/client/src/client.rs:106-168 | a duplicate brought by a retry, still stored, changes neither table, mixed into any batch |
| `CrossNode.SuccessMeansEnqueued` | crates/ingest/src/http.rs:133-155 | from how the hub answers: a success the client reports is of the whole batch, all of which that attempt enqueued |
| `CrossNode.PipelineConserves` | crates/ingest/src/normalizer.rs:72-114 | in every run of bus, normalizer, cold queue and writer: received = committed + dropped by the writer + buffered + queued + dropped at a full or closed queue + on the bus, and no queue exceeds its depth |
| `CrossNode.BusTakesAllBrought` | crates/ingest/src/http.rs:133-155 | in every run the bus has taken exactly what was brought to it: one event per successful send and every event of the hub's own producers |
| `CrossNode.NoMoreThanMaxAttempts` | crates/client/src/client.rs:106-168 | in every run no batch is sent more often than configured, and replies are judged by the number of requests begun for the batch |
| `CrossNode.SweepsAreExecuted` | crates/store/src/cold/store.rs:78-404 | in every run the hub's store has executed exactly the sweeps of the run, in order, among what the writer committed, and the cold queue is closed exactly if the writer went away |
| `CrossNode.NormalizedDelivers` | crates/ingest/src/normalizer.rs:72-114 | a turn of the hub's normalizer puts the completed event at the end of an open cold queue with room, and else counts it as a full or closed drop, changing nothing else |
| `CrossNode.CommitStores` | crates/store/src/cold/writer.rs:162-183 | a flush that goes through stores every buffered event and leaves stored rows alone |
| `Arrival.EventArrives` | crates/percept/src/forwarder.rs:99-156 | after any legal run that leaves edge and hub drained, an event the edge emits can travel on: the extended run is legal, the client reports one accepted, and the hub holds its image |
| `Delivery.DroppedAgainstReached` | crates/percept/src/forwarder.rs:133-156 | in every run the drop count is the events of failed batches that never reached the hub plus those that did, forwarded plus the latter is what reached it, and the count is exact if and only if no batch failed after an attempt at it had passed the hub's checks and found room on the bus |
| `Delivery.AcceptedMeansArrived` | crates/client/src/client.rs:106-127 | in every run, when a client is told its batch was accepted, every event of it has been put on the hub's bus |
| `Delivery.ReachedMeansArrived` | crates/ingest/src/http.rs:133-155 | in every run an edge's event was put on the hub's bus if and only if it lies in the reached part of a batch |
| `Delivery.LastAttemptCanSplit` | crates/ingest/src/http.rs:133-155 | a last attempt that stands at a full bus can be answered so: the batch counts as dropped with what was enqueued of it on the bus |
| `Delivery.OvercountHappens` | crates/percept/src/forwarder.rs:133-156 | a legal run from the start, for any two events: two are counted as dropped, one is on the bus |
| `CrossNode.PeersStayApart` | crates/percept/src/forwarder.rs:161-176 | rows of dot-free peers share a source if and only if peer and source agree |
| `Topic.NewMatcher` | crates/ingest/src/mqtt/topic.rs:22-32 | a filter's levels as segments |
| `Topic.CapturesOf` | crates/ingest/src/mqtt/topic.rs:37-69 | the index loop, always in range, computes level-by-level matching |
| `Topic.MatchesExactlyWhen` | crates/ingest/src/mqtt/topic.rs:37-69 | a topic matches with given captures if and only if its levels are the filter's with `+` refilled in order and `#` replaced by zero or more levels |
| `Topic.FilterMatchesExactlyWhen` | crates/ingest/src/mqtt/topic.rs:22-69 | on the texts: a topic matches if and only if its levels equal the filter's up to the first `#`, any level for a `+`; each `+` has captured the level in its place, `#` the rest |
| `Topic.RefillReproducesTopic` | crates/ingest/src/mqtt/topic.rs:37-69 | without `#`, refilling and joining gives the topic back |
| `Topic.CapturesHaveOneShape` | crates/ingest/src/mqtt/topic.rs:37-69 | all topics a filter matches yield as many captures, and a tail or not, alike |
| `Topic.JoinSplit` | crates/ingest/src/mqtt/topic.rs:22-69 | joining a split topic gives it back |
| `Topic.SplitExactlyWhen` | crates/ingest/src/mqtt/topic.rs:22-69 | the levels of a text are the one list of slash-free pieces that joins to it |
| `Topic.AcceptedHoleIsAscii` | crates/ingest/src/mqtt/topic.rs:90-128 | an accepted placeholder's byte length is its character count |
| `Topic.Render` | crates/ingest/src/mqtt/topic.rs:90-128 | the loop mixing byte and character offsets equals substitution over the tokenised template |
| `Topic.TemplateMeans` | crates/ingest/src/mqtt/topic.rs:90-128 | text without a brace goes through, the first pair of braces is replaced or stops the rendering with its error, an unclosed brace stops it |
| `Topic.PlaceholderYieldsLevel` | crates/ingest/src/mqtt/topic.rs:90-128 | `{+n}` yields the topic's level at the place of the filter's n-th `+` |
| `Topic.HashYieldsTail` | crates/ingest/src/mqtt/topic.rs:90-128 | `{#}` yields the topic from the place of the filter's `#` on, and an error without one |
| `Topic.RenderingIsUniform` | crates/ingest/src/mqtt/topic.rs:90-128 | for one filter and template all matching topics render, or all fail with the same error |
| `Csv.ParseCsvRow` | crates/ingest/src/mqtt/decode.rs:82-107 | the loop with lookahead computes the quoted-field automaton |
| `Csv.RoundTrip` | crates/ingest/src/mqtt/decode.rs:82-107 | safely quoted fields print and parse back, with any further quoting |
| `Csv.RoundTripExactlyWhen` | crates/ingest/src/mqtt/decode.rs:82-107 | parsing back succeeds if and only if no bare field holds a comma or begins with a quote |
| `Csv.PayloadRoundTrip` | crates/ingest/src/mqtt/decode.rs:71-78 | fields without line breaks survive a payload with LF or CRLF and further lines |
| `Csv.FirstLineIs` | crates/ingest/src/mqtt/decode.rs:71-78 | the row is the text up to the first line feed, less one carriage return right before it; a carriage return at the very end stays |

## Left out

- Storage and encoding libraries: SQLite (tables are maps, transactions atomic), CBOR and base64
  (a cursor either decodes to what was encoded or not at all), BLAKE3 (a function of the request,
  assumed collision-free among the requests of one scan), the vector byte codec.
- The `day` column is modelled as a function of the timestamp; rows do not carry it.
- Glob and LIKE matching: an arbitrary predicate. Nothing is claimed about `_` and `%` in globs,
  whose escapes the LIKE clause does not honour.
- Failures of a single append (serialisation, SQL) appear only as the outcome of a flush, and
  failures inside a sweep, which end the pass early, do not appear.
- Floating point: scores are reals, NaN is excluded; the embedder, normalisation and text
  truncation are parameters.
- VectorSearch.SearchKn: leaves out k = 0 with a matching row, where the original panics; its only
  caller clamps k to 1 through 50.
- The order in which a pass visits pairs, and the wording of its warnings (a warning here is its
  pair, dimension and count).
- ColdWriter.ColdWriterTask.Run: the writer has the store to itself; other writers and sweeps are
  interleaved in `ColdHistory` and `CrossNode`.
- Sweeper.SweepAll: its report is proved for a pass that has both stores to itself. With appends between
  its steps, `SweepInterleaved` proves what is removed and the total, not the list per pair; vectors
  appended meanwhile are in `VectorProtocol`.
- Dangling.CanDangleExactlyWhen: tables have no largest size, so any count limit can be exceeded.
- CrossNode.SuccessMeansEnqueued: whatever stands between client and hub may lose or replace an answer,
  but is taken not to make up a success.
- BatchFlush.BatchesPartitionInput: stated once for the loop shared by cold writer, embedder task,
  forwarder and client batcher; the embedder's and the batcher's own counters are not modelled.
- Locks of the hot rings, tokio, HTTP, MQTT and WebSocket transport, clocks, sleeping and
  randomness: inputs, or steps that may happen at any time.
- Token lookup, rate limiter, size estimate, soft-cap and shed counters of the ingest endpoint:
  their verdicts are inputs, their metrics are not modelled.
- JSON Schema, JSONPath, TOML and secrets, profile and duplicate-source rules of the startup check and
  the wording of its errors, CLI, metrics text, MCP envelopes and federation merging.
- The `$`-topic rule of section 4.7.2 of MQTT 3.1.1, which the matcher does not implement.
