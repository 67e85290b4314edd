# Verified model of the rir2localdb sync pipeline

rir2localdb mirrors the public files of the five regional Internet registries into PostgreSQL. A
`sync` run visits a list of sources; for each one it decides whether the file changed, downloads it,
parses it and upserts its rows; then it ages rows that were not seen for a while. Runs repeat for
ever against servers that change. This project models that pipeline in Dafny, without its I/O, and
proves what holds over whole histories of runs.

`dafny verify dfyconfig.toml` checks everything.

## How the model is laid out

| file | models |
|---|---|
| `Prelude.dfy`, `PyText.dfy`, `Decimal.dfy`, `Bits.dfy` | optional values, Python string operations, `int`/`str`, bit lengths |
| `RetryPolicy.dfy` | the retry policy and the sidecar's retry loop |
| `Download.dfy` | the conditional GET: retries, streaming to a tmp file, atomic replace |
| `Fetcher.dfy` | the three tiers of change detection |
| `Database.dfy`, `SyncState.dfy` | the database as a mutable object, the `sync_file` row |
| `Tables.dfy` | upsert and flush on the tables with `last_seen_run` |
| `Gc.dfy` | threshold, mark and clear |
| `Orchestrator.dfy`, `History.dfy` | one source, one run, committed histories |
| `ChangeDetection.dfy`, `Refinement.dfy`, `CachedLoading.dfy` | what detection guarantees over histories against honest servers |
| `Truthfulness.dfy`, `Scenarios.dfy`, `Blindspots.dfy` | exactly when detection can be trusted against servers that may omit validators, and servers that mislead it |
| `RunHistory.dfy`, `Expiry.dfy` | first and last sightings and staleness over histories; rows of sources that do not change |
| `LockProtocol.dfy`, `LateRun.dfy` | interleaved transactions and the advisory lock; runs that commit out of id order |
| `ConcreteRuns.dfy` | concrete runs behind the disagreements listed below |
| `RpslParser.dfy`, `RpslPrinter.dfy`, `RpslGrammar.dfy` | the RPSL line parser, a grammar of its files with a printer, the round trip, and the reading of any file |
| `RpslMappers.dfy`, `AddressBlocks.dfy` | ranges, prefixes and most-specific lookup |
| `RpslEtl.dfy`, `DelegatedEtl.dfy` | batched ETL of RPSL objects, ETL of delegated records |
| `RdapCache.dfy` | RDAP lookups through the TTL cache |

Code that changes state is a class or a method with loops (`Db`, `CacheDir`, `Counters`, `RpslParseStats`,
`RpslEtlStats`, `Cache`), proved equal to a function of the old state; the laws are lemmas about those
functions. What the model takes as a parameter: the server's answers (a script per request, which may
depend on the conditional headers), the hash, HTTP-date conversion, the address parser of the
standard library, the digest found in a sidecar's text, the clock, and exceptions from disk or database.
`Truthfulness` asks that an HTTP date that was formatted reads back as the same instant.
ETL of a body is a parameter of the orchestrator (`Load`: raise, or upsert rows); `RpslEtl` and
`DelegatedEtl` show that the two real ETLs are such loads.

## Where the code and its documentation disagree

The model follows the code.

- Run status. The documentation says a run fails when every source failed. A source that raises is not
  in `total_sources`, so one loaded source and one raising source give `failed`, and sources that all
  raise give `success` (`ConcreteRuns.StatusSurprises`; exact condition: `Orchestrator.StatusAsDocumentedIff`).
- Staleness. The documentation says a stale row did not appear in the last N successful syncs. A source
  that is UNCHANGED runs no ETL, so its rows age although they are still published
  (`ConcreteRuns.PublishedRowGoesStale`; exact age: `Expiry.UnchangedSourcesExpire`).
- Run ids are taken before the lock. A run that waits can commit after a run with a larger id. Its rows
  can be stale in its own commit, and a row can be last seen before it was first seen
  (`ConcreteRuns.LateRunExists`; exact conditions: `RunHistory.StaleAtOwnCommitIff`,
  `RunHistory.FirstBeforeLastIff`). The grace-period theorems therefore ask for id order.
- COALESCE keeps an old validator that a response omits, so detection can report UNCHANGED over another
  body (`Blindspots.OmittedEtagGoesUnnoticed`, `Blindspots.MissingSidecarGoesUnnoticed`; exact
  condition over histories: `Truthfulness.DetectionIsSoundIff`).
- `docs/04-sync-pipeline.md` promises a retry when the md5 of a download does not match. The body is
  never compared with its sidecar; the sidecar's digest is recorded whatever the body is
  (`Blindspots.SidecarDigestIsNotChecked`).
- RDAP spans that are no CIDR block give the tightest cover, not 0 (`AddressBlocks.RdapSurprises`; exact
  condition: `AddressBlocks.RdapValueAsPromisedIff`).
- The comment beside the IPv4 prefix length takes a power-of-two count for an aligned block
  (`DelegatedEtl.UnalignedRecordGetsAPrefix`; exact condition: `DelegatedEtl.V4RecordIsCidrIffAligned`).
  Delegated IPv6 records are stored unmasked (`DelegatedEtl.V6RecordIsCidrIffAligned`).
- The loser of the lock commits its `failed` row even in a dry run (`Orchestrator.RunSync`).
- A 429 whose Retry-After is beyond the calendar raises instead of being remembered
  (`RdapCache.RateLimitIsHonoured`).

## Model

| member | source | states |
|---|---|---|
| `RetryPolicy.RetryRequest` | src/rir2localdb/sync/fetcher.py:519-559 | requests, sleeps and outcome are those of the shared policy on any script of events, for any number of attempts, zero or negative included |
| `RetryPolicy.FirstAnswerDecides` | src/rir2localdb/sync/fetcher.py:533-554 | network failures, 5xx and 429 are retried; the first other answer ends the loop, accepted below 400, refused otherwise; one sleep per retried event, Retry-After on a 429, else 2^i, at most 60 seconds |
| `RetryPolicy.RetriesRunOut` | src/rir2localdb/sync/fetcher.py:526-559 | retried events only: every allowed attempt is spent, one sleep fewer, the last error and its status reported; none when none is allowed |
| `RetryPolicy.NoSleepExceedsTheCap` | src/rir2localdb/sync/fetcher.py:543-554 | no sleep is longer than 60 seconds, whatever Retry-After says |
| `Download.ConditionalGet` | src/rir2localdb/sync/fetcher.py:404-483 | same policy on the same script, a body that breaks off counting as a network failure; at every file operation, retries included, the target holds its old content or the one complete body; no new tmp file stays |
| `Download.GetAnswerDecides` | src/rir2localdb/sync/fetcher.py:419-463 | which response ends the download and how: 304, complete body or refusal; a broken body is retried; the sleeps before it |
| `Download.GetRetriesRunOut` | src/rir2localdb/sync/fetcher.py:465-483 | failures worth a retry only: every attempt is spent and no body is stored |
| `Download.ReportDescribesTarget` | src/rir2localdb/sync/fetcher.py:449-463 | reported size and hash are those of the body now in the target, and without a download the target is unchanged |
| `Fetcher.Fetch` | src/rir2localdb/sync/fetcher.py:256-338 | the tier decision as a function of what the server does, and which body is then in the cache directory |
| `Fetcher.SidecarByAnswer` | src/rir2localdb/sync/fetcher.py:366-386 | the sidecar is asked when the source names one; only a 404 is missing; no digest is an error |
| `Fetcher.FetchClosesAtTheSidecar` | src/rir2localdb/sync/fetcher.py:260-279 | a failed sidecar ends in ERROR, the remembered digest in UNCHANGED at tier 1, both without a GET |
| `Fetcher.FetchMakesTheGet` | src/rir2localdb/sync/fetcher.py:281-338 | every other fetch: the headers sent, and the whole result of a failure, a 304 and a body |
| `Fetcher.ResultDescribesBody` | src/rir2localdb/sync/fetcher.py:309-338 | tier 3 exactly when a body was written, with its size and hash; NEW exactly without a row, UPDATED exactly with another hash |
| `SyncState.WriteResult` | src/rir2localdb/sync/state.py:84-105 | the row after the upsert, column by column, under the rules for each status and tier |
| `SyncState.WrittenByColumn` | src/rir2localdb/sync/state.py:125-199 | every column after the upsert: an error keeps the validators, a 304 keeps digest, hash and size and takes the tag and date it carries, other outcomes replace what they bring |
| `SyncState.WriteThenRead` | src/rir2localdb/sync/state.py:64-81 | reading back gives the four validators just written, the date formatted again, and leaves other URLs alone |
| `Orchestrator.RunOneSource` | src/rir2localdb/sync/orchestrator.py:365-424 | fetch, record, load and mark as one step with the ETL's counts; a raise restores files, rows and applied body together |
| `Orchestrator.VisitByFormat` | src/rir2localdb/sync/orchestrator.py:384-424 | by format name: a new body of Delegated, Rpsl, RpslGz or RpslSplitGz is loaded, applied and its parse time set; nothing else touches rows; when a visit raises |
| `Orchestrator.Counters.Add` | src/rir2localdb/sync/orchestrator.py:336-362 | the counters after a returned source, the inserted and updated sums per table included |
| `Orchestrator.CountersAddUp` | src/rir2localdb/sync/orchestrator.py:231-248 | new + updated + unchanged + errored is the number of sources; the total is the number that did not raise |
| `Orchestrator.FailedIffRaisedBalancesClean` | src/rir2localdb/sync/orchestrator.py:250-260 | status failed exactly when some source returned and as many raised as returned without error |
| `Orchestrator.StatusAsDocumentedIff` | src/rir2localdb/sync/orchestrator.py:32-37 | exactly when that status is the documented "all sources failed" |
| `ConcreteRuns.StatusSurprises` | src/rir2localdb/sync/orchestrator.py:231-260 | concrete runs where it is not: one source loads and one raises, and all raise |
| `Orchestrator.VisitSources` | src/rir2localdb/sync/orchestrator.py:231-248 | the loop visits the sources in order, each on the data the previous one left; over the whole loop inserted is the growth of every table and inserted plus updated the rows upserted |
| `Orchestrator.RunSync` | src/rir2localdb/sync/orchestrator.py:197-307 | committed state and whole summary after an infrastructure error, a lost lock, a dry run and a full run: status, counts, ETL sums and GC counts |
| `Gc.NthLargestByCounting` | src/rir2localdb/sync/gc.py:98-113 | the threshold query returns the run that exactly N-1 successful runs exceed, and nothing exactly when there are fewer than N |
| `Gc.StaleIffGraceRunsPassed` | src/rir2localdb/sync/gc.py:82-91 | past bootstrap a row is stale exactly when at least N successful runs have a larger id than its last sighting |
| `Gc.BootstrapChangesNothing` | src/rir2localdb/sync/gc.py:110-111 | with fewer than N successful runs no row changes |
| `Gc.RunGc` | src/rir2localdb/sync/gc.py:96-156 | the flags of all 13 tables after it, the RDAP entries that expired over seven days ago deleted and no other, and marked, cleared and deleted counts, zero entries left out |
| `Gc.StaleIsConserved` | src/rir2localdb/sync/gc.py:118-139 | stale after = stale before + marked - cleared, per table |
| `Gc.GcIsIdempotent` | src/rir2localdb/sync/gc.py:118-139 | a second GC changes no flag and would count nothing |
| `ChangeDetection.VisitIsRecorded` | src/rir2localdb/sync/orchestrator.py:379-424 | run, status, source columns and parse time after a visit; nothing after a raise; rows change only when ETL ran |
| `ChangeDetection.VisitKeepsShaIff` | src/rir2localdb/sync/state.py:151-189 | a visit keeps "last_sha256 is NULL or the hash of the applied body" exactly unless, without a fault, it downloads a body with another hash in a format that has no ETL |
| `ChangeDetection.ShaInvariantOverHistory` | src/rir2localdb/sync/orchestrator.py:234-248 | that invariant in every reachable committed state, any servers, any ETL failures, supported formats |
| `ChangeDetection.Md5ChangesOnlyWithABody` | src/rir2localdb/sync/state.py:157-189 | `last_md5` changes only in a visit that downloaded a body |
| `ChangeDetection.NotModifiedIsRecorded` | src/rir2localdb/sync/state.py:163-172 | a 304 stores the entity tag and the date it carries and leaves digest, hash, size and rows alone |
| `ChangeDetection.MismatchIsRechecked` | src/rir2localdb/sync/fetcher.py:284-307 | after a 304 against its sidecar the same sidecar cannot close tier 1, over any runs without a downloaded body |
| `Refinement.HonestVisitAppliesCurrentBody` | src/rir2localdb/sync/fetcher.py:260-328 | against an honest server the validators keep naming the applied body, and a clean visit leaves the current body applied |
| `Refinement.DetectionRefinesDownloading` | src/rir2localdb/sync/orchestrator.py:379-417 | the same after any history and any earlier visits of the run: detection refines downloading every time |
| `Blindspots.OmittedEtagGoesUnnoticed` | src/rir2localdb/sync/state.py:181-189 | without an ETag on one 200 the program can report UNCHANGED over another body |
| `Blindspots.MissingSidecarGoesUnnoticed` | src/rir2localdb/sync/state.py:181-194 | so it can when the sidecar is missing for one download |
| `Blindspots.SidecarDigestIsNotChecked` | src/rir2localdb/sync/state.py:181-182 | a download records the sidecar's digest whatever the body is, and the same sidecar then closes tier 1; the digest is right exactly when the sidecar told the truth |
| `Truthfulness.SafeRowAppliesCurrentBody` | src/rir2localdb/sync/fetcher.py:260-328 | when no remembered validator speaks of another body, a clean visit to any truthful server leaves its current body applied |
| `Truthfulness.UnsafeRowCanMislead` | src/rir2localdb/sync/fetcher.py:284-307 | otherwise some truthful server is reported UNCHANGED over another body |
| `Truthfulness.DownloadLeavesSafeIff` | src/rir2localdb/sync/state.py:174-199 | a download leaves the row safe exactly when every digest, tag and date that COALESCE keeps and that will be used speaks of the new body |
| `Truthfulness.SafeAfterVisitIff` | src/rir2localdb/sync/state.py:151-189 | one visit exactly: without a download a row stays safe or unsafe |
| `Truthfulness.SafeAfterHistoryIff` | src/rir2localdb/sync/orchestrator.py:379-417 | after any history of truthful visits the row is safe exactly when the last download was complete, or there was none |
| `Truthfulness.DetectionIsSoundIff` | src/rir2localdb/sync/orchestrator.py:379-417 | after such a history, every truthful server's current body is applied by the next clean visit exactly under that condition |
| `Truthfulness.HonestIsTruthful` | src/rir2localdb/sync/fetcher.py:260-328 | the servers of the refinement theorem are truthful |
| `CachedLoading.CachedLoadingMatchesNaive` | src/rir2localdb/sync/orchestrator.py:384-417 | any number of honest sources that write different rows: the rows have the keys, payloads and first sightings that loading at every visit would give |
| `RunHistory.VisitsUpsertTheirWrites` | src/rir2localdb/sync/orchestrator.py:234-248 | before GC a run only upserts the rows of sources that were not rolled back |
| `RunHistory.RowAfterRun` | src/rir2localdb/etl/delegated_etl.py:370-392 | first sighting, last sighting and flag of any row after any run |
| `RunHistory.FreshRunKeeps` | src/rir2localdb/etl/delegated_etl.py:381-392 | in any commit order a run removes no row, changes no first_seen_run, loses no success, never lowers the threshold and makes no row stale in bootstrap |
| `RunHistory.FirstBeforeLastIff` | src/rir2localdb/etl/delegated_etl.py:381-391 | a run keeps first_seen_run <= last_seen_run for a row exactly if it does not touch it or its id is not smaller than first_seen_run |
| `RunHistory.ReachedIsSound` | src/rir2localdb/etl/delegated_etl.py:23-28 | for runs that commit in id order: first_seen_run <= last_seen_run in every reachable state, and no stale row before bootstrap is over |
| `RunHistory.FirstSeenNeverChanges` | src/rir2localdb/etl/delegated_etl.py:381-391 | in any commit order rows are never removed and first_seen_run never changes |
| `RunHistory.ThresholdOnlyRises` | src/rir2localdb/sync/gc.py:98-113 | in any commit order the threshold never decreases |
| `RunHistory.LiveAtItsCommit` | src/rir2localdb/sync/orchestrator.py:262-277 | a row touched by a successful run is live at that commit |
| `RunHistory.LiveForTheGracePeriod` | src/rir2localdb/sync/gc.py:118-139 | and stays live until at least N later runs have succeeded |
| `RunHistory.ExpiresExactlyAfterGrace` | src/rir2localdb/sync/gc.py:6-16 | if it is not touched again it is stale exactly once N later runs have succeeded |
| `Expiry.UnchangedSourcesExpire` | src/rir2localdb/sync/orchestrator.py:384-385 | runs whose every visit is UNCHANGED make a row stale exactly when there have been N of them, and every honest server of its source still publishes the row |
| `ConcreteRuns.PublishedRowGoesStale` | src/rir2localdb/sync/orchestrator.py:384-385 | a concrete one: grace 1, a 200, a 304, and the row is stale |
| `RunHistory.StaleAtOwnCommitIff` | src/rir2localdb/sync/orchestrator.py:197-210 | in any commit order: stale at its own commit exactly when N successful runs have larger ids |
| `LockProtocol.EveryInterleavingIsSerial` | src/rir2localdb/sync/orchestrator.py:187-223 | the invariant of any interleaving: lock table, holder's progress, and committed state as a sequential history |
| `LockProtocol.MutualExclusion` | src/rir2localdb/sync/orchestrator.py:206-210 | at most one transaction is between taking the lock and its end |
| `LockProtocol.LockIsTakenIffFree` | src/rir2localdb/sync/orchestrator.py:206-210 | in any interleaving the lock is taken exactly when no transaction is at work, else lost |
| `LockProtocol.FinishReleasesTheLock` | src/rir2localdb/sync/orchestrator.py:290-294 | after a commit or rollback no transaction is at work |
| `LockProtocol.CommittedIsSequential` | src/rir2localdb/sync/orchestrator.py:18-21 | the committed database is what the committed runs build one after another |
| `LockProtocol.WhoChangesWhat` | src/rir2localdb/sync/orchestrator.py:211-294 | a loser changes its own `sync_run` row only; dry runs, crashes and unfinished runs change nothing; a winner's commit is a sequential run |
| `LockProtocol.ShaInvariantUnderConcurrency` | src/rir2localdb/sync/orchestrator.py:187-294 | the hash invariant in every interleaving |
| `LockProtocol.StepCommitsAFreshRun` | src/rir2localdb/sync/orchestrator.py:197-204 | in any interleaving a step commits nothing or one run under an id never committed before |
| `LockProtocol.LaterCommitsKeep` | src/rir2localdb/sync/gc.py:98-113 | in any interleaving rows, first sightings and successes are kept and the threshold never decreases |
| `LockProtocol.NoStaleRowInBootstrap` | src/rir2localdb/sync/gc.py:110-111 | in any interleaving no row is stale while fewer than N runs have succeeded |
| `LateRun.LateRunIsBornStale` | src/rir2localdb/sync/orchestrator.py:197-210 | an interleaving in which everything the late run loads is stale in its own commit, and rows it shares are last seen before they were first seen |
| `ConcreteRuns.LateRunExists` | src/rir2localdb/sync/orchestrator.py:197-210 | the same with two concrete visits |
| `RpslParser.ParseRpslInternal` | src/rir2localdb/parsers/rpsl.py:164-236 | the loop equals splitting at blank lines and folding each paragraph; the statistics at the end |
| `RpslParser.TakeRawLine` | src/rir2localdb/parsers/rpsl.py:175-230 | one line of the loop keeps object, key and flag consistent, so the defensive branch is dead |
| `RpslParser.ParseSplitsAtBlank` | src/rir2localdb/parsers/rpsl.py:182-200 | parsing xs, a blank line and ys is parsing xs followed by parsing ys |
| `RpslPrinter.RoundTrip` | src/rir2localdb/parsers/rpsl.py:170-236 | any document of a grammar over characters, with folds, comments, lines without a colon, stray continuations, padding, key case and interleaved repeats, parses to its meaning |
| `RpslPrinter.MeaningIsFirstOccurrences` | src/rir2localdb/parsers/rpsl.py:223-230 | that meaning without the parser's dictionary: keys in order of first occurrence, the unfolded values of each key in line order |
| `RpslPrinter.AnyPrintRoundTrips` | src/rir2localdb/parsers/rpsl.py:170-236 | every folded, commented, interleaved print of given objects parses to those objects |
| `RpslPrinter.ObjectsRoundTrip` | src/rir2localdb/parsers/rpsl.py:170-236 | every list of well-formed objects has a print, and it parses to that list |
| `RpslGrammar.EveryFileIsADocument` | src/rir2localdb/parsers/rpsl.py:170-236 | the grammar leaves no file out |
| `RpslGrammar.EveryFileParsesAsItReads` | src/rir2localdb/parsers/rpsl.py:170-236 | for any file the parsed objects are those of its document: keys in order of first occurrence, unfolded values in line order |
| `RpslEtl.FlushTable` | src/rir2localdb/etl/rpsl_etl.py:474-496 | fails exactly on a repeated key, else upserts the batch and counts inserted and updated |
| `RpslEtl.ApplyRpslEtl` | src/rir2localdb/etl/rpsl_etl.py:431-471 | fails exactly when a flush has a repeated key, else gives the rows of one-at-a-time upsert, each in the table of its object's class with its last payload; inserted is key growth, inserted plus updated the rows mapped; unknown and malformed count exactly the objects without a table and those rejected |
| `RpslEtl.ObjectGoesToItsClass` | src/rir2localdb/etl/rpsl_etl.py:104-116 | an object goes to the table of its RPSL class with the rows of that table's mapper; unknown exactly when no table has its class |
| `RpslEtl.EtlRowsAreOfTheirClass` | src/rir2localdb/etl/rpsl_etl.py:446-463 | every mapped row is there, seen in this run, with the payload of the last object that maps to it; every other row is as before |
| `RpslEtl.SkipsByObject` | src/rir2localdb/etl/rpsl_etl.py:436-456 | which objects each counter counts |
| `RpslEtl.FlushedAtTheThreshold` | src/rir2localdb/etl/rpsl_etl.py:461-463 | a buffer is flushed as soon as it reaches the batch size, and not before |
| `RpslEtl.SeenAddsUp` | src/rir2localdb/etl/rpsl_etl.py:436-456 | seen = unknown + malformed + mapped objects |
| `RpslEtl.ByTypeAddsUp` | src/rir2localdb/etl/rpsl_etl.py:368-371 | seen = the sum of `objects_by_type` + the objects without a key, and each entry is the number of objects of its type |
| `RpslEtl.FailureNeedsARepeatedKey` | src/rir2localdb/etl/rpsl_etl.py:461-469 | failure needs a repeated key in the stream; without a threshold flush every repeated key fails |
| `Tables.UpsertAllIsLastWins` | src/rir2localdb/etl/delegated_etl.py:370-392 | upserting a list leaves in every row the last payload written, the first run that inserted it and its flag |
| `Tables.SamePerTableSameRows` | src/rir2localdb/etl/rpsl_etl.py:465-469 | the order between tables does not matter |
| `Tables.InsertsIsGrowth` | src/rir2localdb/etl/rpsl_etl.py:490-495 | the inserted count of a flush is the growth of its table's key set and no other table changes |
| `RpslMappers.CanonicalPrefix` | src/rir2localdb/etl/rpsl_etl.py:580-597 | four octets of digits are rewritten one by one and the suffix is kept |
| `RpslMappers.CanonicalOctets` | src/rir2localdb/etl/rpsl_etl.py:581-586 | the rewritten octets have the same numbers and no leading zeros |
| `RpslMappers.CanonicalizeIsIdempotent` | src/rir2localdb/etl/rpsl_etl.py:580-597 | canonicalising twice is canonicalising once, for every text |
| `RpslMappers.OtherTextsAreLeft` | src/rir2localdb/etl/rpsl_etl.py:590-596 | anything but four integers between dots is returned unchanged |
| `RpslMappers.SameCanonicalIffSameNumbers` | src/rir2localdb/etl/rpsl_etl.py:590-597 | two addresses get the same text exactly when their octets are the same numbers |
| `RpslMappers.ToRouteRows` | src/rir2localdb/etl/rpsl_etl.py:716-755 | one row per non-blank origin, in order, none for a bad prefix |
| `RpslMappers.RouteRowsByColumn` | src/rir2localdb/etl/rpsl_etl.py:716-755 | key and payload of every row, column by column |
| `RpslMappers.NonBlankOrigins` | src/rir2localdb/etl/rpsl_etl.py:734-737 | the origins kept: stripped, blank ones left out, in order |
| `RpslMappers.ZeroPaddingKeepsKeys` | src/rir2localdb/etl/rpsl_etl.py:717-745 | routes that differ only in zero padding get the same keys |
| `RpslMappers.Inet6numIsACidrBlock` | src/rir2localdb/etl/rpsl_etl.py:527-541 | an `inet6num` range is an aligned block of the written length that contains the written address |
| `RpslMappers.Inet6numAcceptedIff` | src/rir2localdb/etl/rpsl_etl.py:527-541 | with one slash: accepted exactly when a decimal length up to 128 follows an address that parses |
| `RpslMappers.Inet6numNeedsOneSlash` | src/rir2localdb/etl/rpsl_etl.py:527-541 | without a slash or with several: rejected |
| `RpslMappers.Inet6numLookupIsLongestPrefix` | src/rir2localdb/api/routers/ip.py:110-140 | the row a lookup returns covers the address and lies inside every other visible covering row |
| `RpslMappers.InetnumCoversWhatIsWritten` | src/rir2localdb/etl/rpsl_etl.py:507-524 | a range is accepted exactly when both ends parse in order, and covers precisely the written addresses |
| `RpslMappers.InetnumNeedsSeparator` | src/rir2localdb/etl/rpsl_etl.py:514-516 | without blank, dash, blank: rejected |
| `RpslMappers.AsnReadsBack` | src/rir2localdb/etl/rpsl_etl.py:544-560 | every way to write an ASN, with blanks, prefix, sign, zeros and underscores, reads as its number; numbers outside 32 bits are refused |
| `RpslMappers.AsnTextsAreAll` | src/rir2localdb/etl/rpsl_etl.py:544-560 | nothing else reads as an ASN |
| `RpslMappers.AsBlockCoversWhatIsWritten` | src/rir2localdb/etl/rpsl_etl.py:797-808 | an `as-block` is accepted exactly when its bounds are in order and fit in 32 bits, and covers precisely the ASNs between them |
| `RpslMappers.AsBlockTextsAreAll` | src/rir2localdb/etl/rpsl_etl.py:797-808 | every accepted `as-block` has that form |
| `AddressBlocks.V4PrefixIsExact` | src/rir2localdb/etl/delegated_etl.py:225-232 | a prefix p is stored exactly for powers of two; 2^(32-p) is the count, and p >= 0 exactly when it is at most 2^32 |
| `DelegatedEtl.V4RecordIsCidrIffAligned` | src/rir2localdb/etl/delegated_etl.py:223-246 | an IPv4 record with a stored prefix is a block of that length exactly when its start is a multiple of its count; without one it is no CIDR block |
| `DelegatedEtl.UnalignedRecordGetsAPrefix` | src/rir2localdb/etl/delegated_etl.py:225-232 | 256 addresses from 0.0.0.1 on are stored as a /24 and are no CIDR block |
| `AddressBlocks.RdapValueIsTightest` | src/rir2localdb/api/rdap.py:284-290 | for spans of 1..2^128 the value is in 0..128, the tightest power-of-two cover, exact precisely for powers of two |
| `AddressBlocks.RdapValueIsZeroIff` | src/rir2localdb/api/rdap.py:285-290 | the value is 0 exactly for spans of more than 2^127 addresses |
| `AddressBlocks.RdapValueNamesTheBlockIff` | src/rir2localdb/api/rdap.py:278-290 | for a start and an end the value names the range as a block exactly when it is a CIDR block |
| `AddressBlocks.RdapValueAsPromisedIff` | src/rir2localdb/api/rdap.py:285-290 | the comment's promise is kept exactly for CIDR blocks and ranges of more than half the space, swapped ends included |
| `AddressBlocks.CidrIffAligned` | src/rir2localdb/etl/delegated_etl.py:225-232 | a range is a CIDR block exactly when its width is a power of two that divides its start |
| `AddressBlocks.RdapSurprises` | src/rir2localdb/api/rdap.py:285-290 | three addresses, and two unaligned ones, get the length of a block that they are not |
| `AddressBlocks.BlocksNestedOrDisjoint` | src/rir2localdb/etl/rpsl_etl.py:636-646 | any two CIDR blocks are nested or disjoint |
| `AddressBlocks.LookupIsLeastWidth` | src/rir2localdb/api/routers/ip.py:49-71 | a row is found exactly when one covers the address and is live or stale rows are asked for; it is such a row and none is narrower |
| `AddressBlocks.StaleRowsAreHidden` | src/rir2localdb/api/routers/ip.py:40-57 | a narrower stale row is passed over unless stale rows are asked for |
| `AddressBlocks.LookupIsLongestPrefixMatch` | src/rir2localdb/api/routers/ip.py:131-138 | on CIDR rows the least width lies inside every other row that may be shown |
| `AddressBlocks.PartialOverlap` | src/rir2localdb/api/routers/ip.py:103-106 | on arbitrary ranges it need not |
| `Bits.AndTestIsPow2` | src/rir2localdb/etl/delegated_etl.py:229 | `value & (value - 1) == 0` holds exactly for powers of two |
| `DelegatedEtl.ApplyDelegatedEtl` | src/rir2localdb/etl/delegated_etl.py:152-192 | fails exactly on an invalid record or a repeated key, else upserts all rows; each count is the number of records of its kind and inserted is the growth of its table |
| `DelegatedEtl.RowsByColumn` | src/rir2localdb/etl/delegated_etl.py:223-290 | when a record has a row, and its key, range and other columns: exactly its count of addresses or ASNs, or 2^(128 - length) |
| `DelegatedEtl.AddressRowsByKind` | src/rir2localdb/etl/delegated_etl.py:152-162 | the address rows are those of the ipv4 and ipv6 records; an invalid one spoils them all |
| `DelegatedEtl.AsnRowsByKind` | src/rir2localdb/etl/delegated_etl.py:152-162 | the ASN rows are those of the asn records; an invalid one spoils them all |
| `DelegatedEtl.V6RecordIsCidrIffAligned` | src/rir2localdb/etl/delegated_etl.py:247-257 | an IPv6 record is a CIDR block exactly when its start is aligned |
| `RdapCache.Cache.Lookup` | src/rir2localdb/api/rdap.py:131-221 | result, number of requests and new cache of one lookup, in every branch |
| `RdapCache.FailuresAreNotCached` | src/rir2localdb/api/rdap.py:165-194 | failed requests, failed normalisations and expiries beyond the calendar leave the cache unchanged; every other reply stores one entry; what raises |
| `RdapCache.OneRequestUnlessCached` | src/rir2localdb/api/rdap.py:131-163 | a living entry answers without a request, otherwise there is exactly one |
| `RdapCache.StoredByStatus` | src/rir2localdb/api/rdap.py:181-221 | what each reply stores and answers: a 200 lives `ttl`, a 429 the longer of the default and Retry-After, any other status the default |
| `RdapCache.RateLimitIsHonoured` | src/rir2localdb/api/rdap.py:202-212 | a 429 entry lives at least as long as the default and as Retry-After asks; the lookup raises exactly when that is beyond the calendar |
| `RdapCache.EntryRepeatsAnswerIff` | src/rir2localdb/api/rdap.py:141-163 | a hit repeats the stored answer exactly unless the normalised object is empty |
| `RdapCache.CachedUntilExpiry` | src/rir2localdb/api/rdap.py:131-261 | on a clock that does not run backwards, every lookup of the key before expiry makes no request and gives the same answer |

## Left out

- HTTP client, redirects, sockets, gzip, text decoding: a request meets a scripted event, a file is a sequence of lines.
- PostgreSQL internals: upsert, savepoint, transaction and advisory lock are trusted; `xmax = 0` is trusted to mean inserted.
- `Fetcher.FetchMd5Sidecar`: the regular expression that finds the digest in the sidecar's text is not modelled; an event carries the digest found.
- `RetryPolicy.RetryRequest`: Retry-After values NaN and infinity, and the overflow of `2.0 ** attempt` above 1023 attempts, are not modelled; error messages are structured values.
- `Fetcher.Fetch`: duration and logging are not modelled.
- `Orchestrator.Counters.Add`: the sums of parsed, unknown and malformed records are not carried; the ETL contracts state them per source. Address, ASN and RPSL sums are one map per table.
- `Orchestrator.RunSync`: the `stats` JSON and timestamps of `sync_run` are not modelled; the run id is given, `LockProtocol` takes it from the sequence.
- `CachedLoading.CachedLoadingMatchesNaive`: sources that write the same row are left out, because a source that is reloaded would overwrite the other's row; last sightings differ by design.
- `RpslParser.ParseRpslInternal`: the generator's laziness is not modelled, the objects are returned as a list; keys are lower-cased on ASCII letters only.
- `RpslEtl.ApplyRpslEtl`: the row mapper is a parameter; COPY, staging tables and the JSONB codec are inside the trusted flush.
- Mappers of organisation, role, person, mntner, as-set, aut-num and route6, and timestamps of rows: field copies around the parsers that are modelled.
- `RpslMappers.AsBlockCoversWhatIsWritten`: the other columns of the row are not modelled.
- `RpslMappers.ToRouteRows`: the payload carries the text columns only; the CIDR column's own checks are not modelled.
- `RpslMappers.CanonicalPrefix`: Unicode digits and the length limit of Python's `int` are not modelled.
- `DelegatedEtl.ApplyDelegatedEtl`: overflow of SQL integer columns is not modelled.
- `RdapCache.Cache.Lookup`: metrics, the URL, vCards and events are not modelled, a JSON object is a map of texts; two lookups of one key at the same moment are not interleaved.
- The joins and response models of the API routers, `cli.py`, `config.py`, the source catalogue and the delegated line parser.
