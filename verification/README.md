# Live-match ingestion pipeline of bb_api, modelled in Dafny

bb_api scrapes the professional baseball schedule and live score pages and
stores what it finds in two MySQL tables, `matches` and `scores`. Two
scheduled jobs drive it:

- **Daily discovery** (`GetMatchScheduletoday`) fetches the day's schedule
  page. It extracts one 8-field tuple per linked match card
  (`GetMatchSchedule`). For each tuple it inserts a `matches` row and then
  a placeholder `scores` row keyed by the new id.
- **Live poll** (`GetScores`) reads the matches that are live now: today's
  matches that have started and whose inning is not a terminal sentinel
  (`GetMatchScoreLive`). For each one it fetches the match page, extracts a
  one-row snapshot (`GetMatchScore`), writes it with `UpdateData` and sleeps
  before the next match.

The read API groups match records by league with `ConvertToJSON`.

The model is functional throughout:

- Pages are immutable datatypes holding the raw texts the extractors query.
- The database is a pure two-table `Store`.
- The jobs are store transformers. Each returns a `Run`: the store it leaves
  plus an effect trace of `FetchPage`, `Connect`, `QueryLive`,
  `InsertMatch`, `InsertScore`, `Update`, `Sleep` and `Fail` events.
- The outside world is injected as parameters:
  - page fetches are a function from URL to `Fetch`;
  - database faults are a `Faults` value covering the connection, the live
    query and each write in turn;
  - today's date and the clock-time cutoff are plain values.

Modules, one concept each:

| module | file | concept |
|---|---|---|
| `Results` | results.dfy | `Option`, `Result`, and the error kinds with their message texts |
| `Text` | text.dfy | `strings.TrimSpace` (behind every `GetText`), `strings.Replace(s, old, new, 1)`, byte-wise text order |
| `Decimal` | decimal.dfy | `strconv.Itoa` and base-10 parsing of an update key |
| `Calendar` | calendar.dfy | the `YYYY-MM-DD` / `YYYY/MM/DD` date layouts |
| `Rows` | rows.dfy | a record as a map from column name to an integer or text value |
| `Scan` | scan.dfy | running a query and scanning every row, all or nothing |
| `Store` | store.dfy | the two tables, `InsertData`, `UpdateData` |
| `Schedule` | schedule.dfy | the schedule page and `GetMatchSchedule` |
| `Score` | score.dfy | the live page and `GetMatchScore` |
| `Json` | json.dfy | `ConvertToJSON` |
| `Repository` | repository.dfy | `GetMatch`, `GetMatchAPI`, `GetScore`, `GetMatchScoreLive` |
| `Jobs` | jobs.dfy | fetch outcomes, injected faults, trace events, `Run` |
| `Daily` | daily.dfy | `GetMatchScheduletoday` |
| `Minutes` | minutes.dfy | `GetScores`, and the properties that span the two jobs and the store |

### Where the model follows the code rather than the design

- **Failures end the job.** The design describes log-and-continue for both
  jobs. In the code, the first failing insert or per-match step returns
  from the job. Later matches are never attempted, and work already done
  stays done. The model follows the code (`Daily.DiscoveryStops`,
  `Minutes.GetScoresShape`).
- **Discovery is not idempotent.** The design asks that re-running
  discovery not duplicate rows. The code has no existence check, so the
  model re-inserts every match under new ids (`Daily.RerunDuplicates`).
- **Too few score cells is a panic.** The design calls this an extraction
  error. `GetMatchScore` indexes `teamscore[1]` unguarded, so the model
  returns a `Panic` failure, which ends the poll as the scheduler's
  `recover` would.
- **The live query's signature.** `GetScores` calls `GetMatchScoreLive(db)`
  with one argument, against the interface's `(db, todate, starttime)`.
  The model passes today's date and the cutoff explicitly.
- **Score order in the mock test.** `GetMatchScore` returns the two score
  cells swapped: the second `td` of the second `tr` comes first. The
  extractor's mock test expects them unswapped
  (`Score.MockPageScoresSwapped`).
- **Terminal result with a live inning.** The mock "end" page keeps the
  inning at `9回裏` while its result reads `試合終了`. Only the inning is
  compared with the sentinels, so a match whose page looks like that stays
  live (`Minutes.MockEndPageNotRetiring`,
  `Minutes.NonTerminalUpdateKeepsMatchLive`).

- **The start time is the status text.** Discovery stores tuple field 5,
  which is the `.bb-score__status` text (`scheduler_daily.go:82`). Every test
  page has `試合前` there, and the discovery test expects `12:00`, which is
  the `.bb-score__link` text. Compared as text, a start time like `試合前`
  is never at or before an `HH:MM` cutoff, so a match discovered that way is
  never polled (`Minutes.StatusStartTimeNeverLive`).
- **`ConnectOnly` is called without its argument.** `db.go` declares
  `ConnectOnly(dsn string)` on both the interface and the service, but
  both jobs call `connect.ConnectOnly()` with no argument. The model only
  sees whether a connection attempt succeeds.
- **A test of a missing function.** The repository's insert test calls
  `repo.InsertMatch`, which the repository does not define. The model
  follows `InsertData`.

## Model

| member | source | states |
|---|---|---|
| Json.ConvertToJSON | utils/json.go:7-29 | Empty input fails with "data is empty". Otherwise the call succeeds exactly when every row has a text under the key. A failure carries the error of the first offending row (key missing or not a string) and no map. On success, the keys are exactly the labels present, and each key maps to the non-empty, order-preserving group of rows bearing that label. |
| Json.GroupMembers | utils/json.go:22 | A group contains only input rows, unchanged, and each carries the group's label. |
| Json.GroupConcat | utils/json.go:14-22 | Grouping distributes over concatenation, so each group keeps the input order of its rows. |
| Json.EveryRowInItsGroup | utils/json.go:16-22 | Every labelled row lands in the group its own label names. |
| Json.GroupSizesSum | utils/json.go:14-22 | When every row is labelled, the sizes of the distinct groups add up to the input length, so the groups partition the input. |
| Schedule.GetMatchSchedule | internal/fetcher/get_match_schedules.go:12-48 | Never fails. It yields one tuple per linked card in the blocks without a no-data marker (none at all when nothing qualifies), and every tuple carries today's date in the `YYYY/MM/DD` layout. |
| Schedule.ScheduleConcat | internal/fetcher/get_match_schedules.go:19-46 | Blocks are processed in document order and their tuples concatenated; nothing is re-sorted. |
| Schedule.NoDataLeagueSkipped | internal/fetcher/get_match_schedules.go:21-45 | A block whose no-data marker has visible text contributes nothing, wherever it sits. |
| Schedule.UnlinkedCardSkipped | internal/fetcher/get_match_schedules.go:33-37 | A card without `href` is dropped, and the cards after it are still processed. |
| Schedule.OneCardTuple | internal/fetcher/get_match_schedules.go:28-40 | The field layout of a tuple: date, trimmed home, away and venue, then the `.bb-score__link` text at position 4 and the `.bb-score__status` text at position 5 (read crosswise to their names), the rewritten link, and the block title. |
| Schedule.ScoreLinkRewrite | internal/fetcher/get_match_schedules.go:38 | A link without `index` is stored unchanged. Otherwise only its first `index` becomes `score`. |
| Schedule.LinkRewriteExample | internal/fetcher/get_match_schedules.go:38 | A single-case cross-check against the test suite's card: the link `/index` is stored as `/score`. The general statement is `Schedule.ScoreLinkRewrite`. |
| Text.ReplaceFirst | internal/fetcher/get_match_schedules.go:38 | `strings.Replace(s, old, new, 1)`: text without the pattern is returned unchanged; otherwise the result is the prefix before the leftmost occurrence, the replacement, then the rest. |
| Text.ReplaceFirstKeepsTheRest | internal/fetcher/get_match_schedules.go:38 | Only the leftmost occurrence changes. The text around it, including any later occurrences, is kept verbatim, and the length changes by the difference of the two patterns. |
| Text.TrimSpaceSpec | utils/scraper.go:86 | The trimmed text has no white space at either end, and it sits inside the input with only white space around it. |
| Text.TrimSpaceOfPadded | utils/scraper.go:86 | Trimming removes exactly the surrounding white space of a padded text and nothing else. |
| Text.TrimSpaceIdempotent | utils/scraper.go:86 | Trimming twice is the same as trimming once. |
| Score.GetMatchScore | internal/fetcher/get_score.go:9-33 | It never returns an error value. It succeeds exactly when at least two score cells exist, and then yields one snapshot whose home and away fields are the second and first score cells. With fewer cells the result is the index panic. |
| Score.ScoreCellsFromRows | internal/fetcher/get_score.go:18-23 | Every collected score cell is the non-empty second `td` of some `tr`. |
| Score.ScoreCellsConcat | internal/fetcher/get_score.go:18-23 | Rows are scanned in document order: the cells of a page are the cells of its first part followed by those of the rest. |
| Score.RowWithoutScoreSkipped | internal/fetcher/get_score.go:19-22 | A row whose second cell is missing or empty contributes no score cell. |
| Score.LaterRowsIgnored | internal/fetcher/get_score.go:30 | Once two score cells exist, further rows do not change the snapshot. |
| Score.SnapshotTexts | internal/fetcher/get_score.go:16-28 | Inning, batter and result are the trimmed page texts. A page without a batter link gives an empty batter, not an error. |
| Score.ScoreCellsNotTrimmed | internal/fetcher/get_score.go:19 | A single-case cross-check: a score cell ` 1 ` reaches the snapshot with its spaces. The general statement is `Score.GetMatchScore`, whose score fields are the raw cells. |
| Score.MockPageScoresSwapped | internal/fetcher/get_match_score_test.go:13-84 | On the mock page's shape (second cells `0` then `2`, plus a one-cell batter row), the code yields `2` before `0` in positions 1 and 2, where the test expects `0` before `2`. |
| Store.InsertData | internal/repository/repository.go:19-29 | On success it returns the new row's id. A failed statement returns 0 and the "failed to insert" error, with nothing applied. A failed id read returns 0 and the "failed to get last insert id" error, with the row already inserted. |
| Store.InsertKeepsValid | internal/repository/repository.go:19-29 | Whatever befalls an insert, match ids stay valid and existing rows are kept. |
| Store.InsertAssignsFreshId | internal/repository/repository.go:24-28 | A successful `matches` insert returns an id no earlier row has, and the new row carries it. |
| Store.UpdateData | internal/repository/repository.go:31-41 | On success it returns the rows-affected count: the number of selected rows whose contents change. A failure returns 0 and an error; a failed statement applies nothing, while a failed count leaves the update applied. Every `scores` row of the keyed match takes all five written values (home score, away score, batter, inning, result) and keeps its id and match id. Every other row, and all of `matches`, is untouched. |
| Store.UpdateTwiceChangesNothing | internal/repository/repository.go:31-41 | Applying the same update twice equals applying it once, and the second application affects no rows. |
| Store.ChangedCountsAltered | internal/repository/repository.go:36-40 | The reported count equals the size of the set of row positions whose contents the update alters, an independent reading of MySQL's changed-rows count. |
| Store.ItoaTargets | internal/scheduler/scheduler_minutes.go:71-73 | The update key made from a match id selects exactly that match's score rows. |
| Decimal.Itoa | internal/scheduler/scheduler_minutes.go:72 | `strconv.Itoa` gives a non-empty text that reads back as the number. |
| Decimal.ItoaInjective | internal/scheduler/scheduler_minutes.go:72 | Distinct ids never share an update key. |
| Calendar.ParseFormatDate | internal/scheduler/scheduler_daily.go:43 | A valid date formatted in a day layout reads back as the same date. |
| Calendar.FormatParsedDate | internal/scheduler/scheduler_daily.go:43 | Every text the date reader accepts is the canonical layout of its date. |
| Scan.Read | internal/repository/repository.go:45-63 | A query error becomes "failed to fetch match". If any row fails to scan the whole read fails with "failed to scan match row". Otherwise there is one value row per result row, in order, and value row k holds the scanned values of result row k. |
| Scan.ScanAllFailure | internal/repository/repository.go:52-63 | A failed scan reports the cause of the first row that does not scan. |
| Scan.BadRowFailsRead | internal/repository/repository.go:61-63 | One bad row anywhere fails the whole read, so no partial list is returned. |
| Scan.NullFailsRow | internal/repository/repository.go:136-138 | A NULL in a column scanned into a Go string or int fails the row. |
| Repository.GetMatch | internal/repository/repository.go:44-79 | Query errors are wrapped. It succeeds exactly when every row scans, and then gives one record per row, in order. Record k holds the scanned values of row k under the eight keys from `id` (an integer) to `link`. A scan failure gives no records. |
| Repository.GetMatchAPI | internal/repository/repository.go:82-116 | Query errors are wrapped. Otherwise it returns the stored matches of the day, in table order, one record each without the link. |
| Repository.ApiRecordsGroupable | internal/repository/repository.go:103-111 | Every API record carries its league as a text, so grouping the records by `league` cannot fail on a missing or non-text key. |
| Repository.GetScore | internal/repository/repository.go:119-151 | Query errors are wrapped. It succeeds exactly when every score row of the keyed match has all five progress columns set. Then it yields one record per such row, in table order. A NULL column fails the read. |
| Repository.ScoreCellsScan | internal/repository/repository.go:128-138 | A score row scans exactly when none of its progress columns is NULL, and it then yields the record of its values. |
| Repository.PlaceholderFailsRead | internal/repository/repository.go:128-138 | When the schema gives no default, reading a match's scores fails right after discovery inserts its placeholder row. |
| Repository.GetMatchScoreLive | internal/repository/repository.go:154-211 | Query errors are wrapped. Otherwise it gives the records of the live join, in join order, with the inning reported under the key `result`. |
| Repository.LiveJoinMembers | internal/repository/repository.go:166-173 | The join returns exactly the stored (match, score row) pairs that pass the `WHERE` clause. |
| Repository.LiveSetExactly | internal/repository/repository.go:154-211 | A record is reported if and only if it comes from a stored match of the day that has started by the cutoff, joined with one of its score rows whose inning is set and is neither `試合終了` nor `試合中止`. |
| Repository.LiveRowOrigin | internal/repository/repository.go:166-206 | Every reported record comes from such a stored live pair. |
| Repository.LivePairReported | internal/repository/repository.go:166-206 | Every stored live pair is reported. |
| Repository.RetiredMatchNotLive | internal/repository/repository.go:168-173 | A match whose every score row has a NULL or terminal inning is not reported. This covers a match with no score row, since NULL compares as unknown under the outer join. |
| Repository.LiveGrowsWithCutoff | internal/repository/repository.go:172 | A later cutoff only adds records. |
| Repository.NoLiveMatches | internal/repository/repository.go:181-209 | With no live pair the reader returns an empty list and no error. |
| Repository.LiveRowFields | internal/repository/repository.go:196-206 | A helper read off the record layout: a live record holds the match id as an integer and the link as a text. The poll's type assertions rely on it. |
| Daily.GetMatchScheduletoday | internal/scheduler/scheduler_daily.go:42-99 | The job always fetches today's schedule URL first. The store changes only after a successful connection. The outcomes are carried by `Daily.DiscoveryFetchFailure`, `Daily.DiscoveryNoGames`, `Daily.DiscoveryConnectFailure`, `Daily.DiscoverySucceeds`, `Daily.DiscoveryStops`, `Daily.DiscoveryFailsOnlyLast` and `Daily.DiscoveryKeepsValid`. |
| Daily.DiscoveryKeepsValid | internal/scheduler/scheduler_daily.go:74-94 | On a store with valid ids, a discovery run keeps the ids valid and only appends to `matches`, whatever the page and the faults. |
| Daily.ScheduleUrl | internal/scheduler/scheduler_daily.go:43-44 | The URL is the fixed schedule prefix followed by a 10-character date that reads back as today. |
| Daily.DiscoveryFetchFailure | internal/scheduler/scheduler_daily.go:46-56 | A failed fetch or body read returns that error before any connection or insert. The store is untouched. |
| Daily.DiscoveryNoGames | internal/scheduler/scheduler_daily.go:65-98 | With no tuples, the run makes no connection and no insert, and returns nil. |
| Daily.DiscoveryConnectFailure | internal/scheduler/scheduler_daily.go:75-79 | A connection failure, met only when there is something to insert, returns that error. The store is untouched. |
| Daily.DiscoverySucceeds | internal/scheduler/scheduler_daily.go:80-92 | A fault-free run issues exactly 2·n inserts, alternating each tuple's `matches` row under the next id with its placeholder score row. It appends n matches dated today and returns nil. |
| Daily.DiscoveryStops | internal/scheduler/scheduler_daily.go:80-90 | When the j-th write is the first to fail, the earlier writes stand and the failing write's own events are recorded. Nothing later is attempted, and the job returns that write's error. The store is exactly `StopStore`: the `matches` rows and placeholder `scores` rows of the writes before j, plus the j-th write's row when only its result could not be read, with both id counters advanced by as many. A failed placeholder insert therefore leaves a match without a score row. |
| Daily.DiscoveryFailsOnlyLast | internal/scheduler/scheduler_daily.go:42-99 | Whatever the page and faults, a run fails at most once, at its last step, and returns an error exactly when its trace holds a failure. |
| Daily.InsertAllKeepsValid | internal/scheduler/scheduler_daily.go:80-92 | The insert loop only appends `matches` rows and keeps match ids valid, whatever faults it meets. |
| Daily.RerunDuplicates | internal/scheduler/scheduler_daily.go:80-92 | A second run on the same page inserts every match again under a new id, identical apart from the id. |
| Daily.InsertAllIgnoresStatus | internal/scheduler/scheduler_daily.go:82 | Tuple field 4 is never persisted: tuples that differ only there produce the same run. |
| Minutes.GetScores | internal/scheduler/scheduler_minutes.go:34-83 | Every run leaves a trace. The store changes only after a connection and a live query. The `matches` table and the number of score rows never change. The outcomes are carried by `Minutes.PollConnectFailure`, `Minutes.PollQueryFailure`, `Minutes.PollNothingLive`, `Minutes.GetScoresShape` and `Minutes.GetScoresSucceeds`. |
| Minutes.UpdateOf | internal/scheduler/scheduler_minutes.go:68-73 | The update writes snapshot positions 1, 2, 3, 0 and 4 to home, away, batter, inning and result. Its key reads back as the match id. |
| Minutes.Planned | internal/scheduler/scheduler_minutes.go:51-73 | A row leads to an update only when it has a text link and an integer id, and that update is keyed by the row's id. |
| Minutes.ReadRowShape | internal/scheduler/scheduler_minutes.go:49-67 | Reading a row either plans its update right after fetching its page, or ends with a single failure, after at most that fetch. |
| Minutes.PlannedByLinkAndId | internal/scheduler/scheduler_minutes.go:51-73 | The update depends only on the row's `link` and `id`. |
| Minutes.VisitFacts | internal/scheduler/scheduler_minutes.go:49-80 | A visit writes exactly its row's planned update, if any. It goes on only after a clean write, and then its events are the fetch, the update and one pause. |
| Minutes.PollConnectFailure | internal/scheduler/scheduler_minutes.go:36-40 | A connection failure returns before the live query. The store is untouched. |
| Minutes.PollQueryFailure | internal/scheduler/scheduler_minutes.go:43-47 | A failed live query ends the cycle before any fetch or update. |
| Minutes.PollNothingLive | internal/scheduler/scheduler_minutes.go:48-82 | With nothing live, the poll fetches and writes nothing and returns nil. |
| Minutes.GetScoresShape | internal/scheduler/scheduler_minutes.go:34-83 | Whatever the inputs, the trace fails at most once, at its end. Every pause follows a write, and every write is followed by its pause or ends the run. The job returns an error exactly when the trace holds a failure. |
| Minutes.GetScoresSucceeds | internal/scheduler/scheduler_minutes.go:49-81 | A fault-free poll fetches, writes and pauses once per live row, in query order (2 + 3·n events). It leaves the store with every planned update applied and returns nil. |
| Minutes.UpdatesArePlanned | internal/scheduler/scheduler_minutes.go:49-77 | Every write of the loop is the planned update of one of its rows. |
| Minutes.PollWritesLiveIds | internal/scheduler/scheduler_minutes.go:49-73 | Every write of a poll is keyed by the id of a match in the live set. |
| Minutes.LiveRowsTyped | internal/scheduler/scheduler_minutes.go:51-71 | Live records always hold a text `link` and an integer `id`, so the poll's type assertions never panic. |
| Minutes.PollKeepsKeys | internal/scheduler/scheduler_minutes.go:68-73 | A poll changes no `matches` row and keeps every score row's match id. |
| Minutes.PollSettles | internal/scheduler/scheduler_minutes.go:68-77 | Provided every live row of the match plans the same inning (`PlansInning`), after a poll writes an update for that match all of its score rows hold the written inning. `Minutes.LiveRowsCoherent` discharges the proviso on a valid store, because a fetch is a function of its URL within a run. |
| Minutes.UniqueIds | internal/repository/repository.go:24-28 | In a store built by inserts, match ids are unique. |
| Minutes.StatusStartTimeNeverLive | internal/scheduler/scheduler_daily.go:82 | Discovery stores the status text as `starttime`, and the live query compares it as text (repository.go:172). A stored start time that opens with a character above `'9'` is never reported live for a cutoff that opens with a digit. |
| Minutes.PreGameStatusNotLive | internal/scheduler/scheduler_test.go:107-108 | A single-case cross-check of the general lemma: the test card's status `試合前`, stored as the start time, is never live under an `HH:MM` cutoff. |
| Minutes.SettledRetired | internal/repository/repository.go:170-173 | A match whose score rows all hold a terminal inning is not in the live set. |
| Minutes.TerminalUpdateRetiresMatch | internal/scheduler/scheduler_minutes.go:68-80 | Once a poll writes `試合終了` or `試合中止` as a match's inning, any later live query omits that match. The next poll, whatever it fetches and whatever faults it meets, writes nothing under its key and leaves its score rows unchanged. |
| Minutes.RetiredMatchUntouched | internal/scheduler/scheduler_minutes.go:49-81 | A poll run against a match already settled on a terminal inning leaves all its score rows as they were. |
| Minutes.NonTerminalUpdateKeepsMatchLive | internal/scheduler/scheduler_minutes.go:68-73 | The converse: after a write with a non-terminal inning, a query for the match's day with a cutoff past its start reports it again, with that inning, whatever the `result` text says. |
| Minutes.MockEndPageNotRetiring | internal/fetcher/get_match_score_test.go:46-99 | On the mock "end" page (inning `9回裏`, result `試合終了`), the resulting update carries a non-terminal inning, so it does not retire the match. |

## Left out

- HTTP fetching and HTML parsing (`GetURL`, `GetBody`, goquery selectors) are replaced by page datatypes holding the raw texts of the queried elements, plus an injected fetch function. A multi-element selection's concatenated `.Text()` is one text field.
- Cron registration, panic recovery and logging (`StartDailyFetch`, `StartMinutesFetch`, `log.Println`) are framework glue. A panic is a `Fail(Panic(..))` event that ends the run, as the cron wrapper's `recover` does.
- `time.Now` is a parameter: the `Date` of discovery, and today's date plus a clock-time cutoff for the poll. `time.Sleep` is the `Sleep` event. Discovery reads the clock twice, once for the URL date and once for the tuple date. The model uses one `today` for both, so it does not cover a run that crosses midnight between the two reads, where the tuples would carry the next day's date.
- The database connection and its configuration from the environment (`ConnectOnly`, `internal/config/db.go`) are outside the model. A connection attempt either succeeds or fails with an injected cause.
- The HTTP API and router (`internal/api`) are outside the model. `Repository.ApiRecordsGroupable` covers how the match handler uses `ConvertToJSON`.
- SQL text is not modelled. `GetMatch` takes the query outcome as a result set of typed cells, since its query is the caller's. `GetMatchAPI` and `GetScore` splice the key into the SQL string; the model treats the key as a value, so quoting and injection are not modelled.
- MySQL specifics are not modelled: collation, the server's own coercion of a text key to a number beyond base-10 digits with an optional sign, and the schema's column defaults. The placeholder score row takes a single `columnDefault`, because the schema is not part of this model.
- Integer widths: ids are unbounded integers, so the 64-bit range of `LastInsertId` and the `int(id)` conversion are not modelled.
- Minutes.PollSettles, Minutes.LiveRowsCoherent, Minutes.PollSettlesTerminal, Minutes.NonTerminalUpdateKeepsMatchLive and Minutes.PlannedByLinkAndId rely on a page fetch being a function of its URL within one run: the fetch is an injected `net: string -> Fetch<ScorePage>`. The code fetches once per live row and sleeps 10 seconds after each write. So when a match has two live score rows, it fetches the same link twice, and the second page may show a later inning that overwrites the first write. Discovery only ever creates one score row per match, but `Store.Valid` does not exclude stores with more, and for those the model does not cover pages that change between the two fetches.
- The causes carried by driver errors are opaque texts; only the wrapping prefix the repository adds is modelled.
- Scan.ScanCause: the text stops after the column index. `database/sql` goes on with `, name "<column>": ` and the conversion error, and those are not modelled.
- Iteration errors are not modelled. None of the four readers calls `rows.Err()` after its `rows.Next()` loop (repository.go:52-76, 91-113, 128-148, 182-209). A driver error partway through the result set ends the loop, and the reader returns the rows read so far with a nil error. The model cannot tell that from a shorter result set: `ResultSet(rows)` holds the rows delivered before iteration stopped, and no error is reported for the rest.
- The id returned by the placeholder `scores` insert is ignored by the job, and the model ignores it the same way.
- Result rows carry no ordering guarantee in SQL without `ORDER BY`. The model fixes table order, and join order is match by match.
- Concurrency between the two jobs, and overlapping runs of the same job, are not modelled: each run is one sequential transformation of the store.
- The stale scheduler revisions, the scratch `main` programs and the test helpers are not part of this model.
- Match dates and start times are treated as text columns compared as text: `m.date = ?` is string equality and `m.starttime <= ?` is code-point order. The schema is not part of this model. With DATE or TIME columns MySQL would normalise both sides, so a stored `YYYY/MM/DD` date would match a `YYYY-MM-DD` query date, and `9:00` would order before `13:00:00`. As text, neither holds.
