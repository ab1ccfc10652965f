# Client Query Management — a Dafny model

This project models the core of a small client-query (help-desk ticket)
system that keeps its data in two MySQL tables. The system has:

- a `users` table, with registration and login by SHA-256 password digest;
- a `client_queries` table of tickets. Clients submit tickets. Support staff
  close them, filter them on a dashboard, and read counts and trends from
  them;
- a batch importer that loads tickets from a CSV file.

Two id schemes coexist:

- The submission form numbers a new ticket from the current row count:
  `Q` plus the number padded to four digits.
- A `BEFORE INSERT` trigger, for rows inserted without an id, takes the
  string-greatest stored id, adds one to its number, and `LPAD`s it to four
  digits.

The model proves when these two schemes agree and how they drift apart.

Tables are immutable sequences of rows, and every operation is a pure
function of the table it reads. The operations that change the store
return the new table:

- registration returns whether it succeeded and the users table;
- an insert or a submission returns the new tickets table or an error;
- closing returns the tickets table.

Login, the analytics and the import's preparation only read and return
their result.

| file | module | what it holds |
|---|---|---|
| `common.dfy` | `Common` | `Option`, `Result` |
| `text.dfy` | `Text` | ASCII lower-casing, decimal digits and their value, Python's zero fill vs MySQL's `LPAD`, string order |
| `query_ids.dfy` | `QueryIds` | the form's id, the trigger's id, and lemmas on when they agree |
| `users.dfy` | `Users` | the users table, `register_user`, `login_user` |
| `tickets.dfy` | `Tickets` | the ticket row, `INSERT` with trigger, primary key and status enum, submit, close |
| `tally.dfy` | `Tally` | group-by-count and the two orders the charts use |
| `analytics.dfy` | `Analytics` | dashboard filters, status counts, heading counts, daily trends |
| `csv_import.dfy` | `CsvImport` | column renaming, `Opened` → `Open`, the per-row insert loop |

**Behaviours of the code worth stating:**

- `login_user` returns `user.get("role", "Client")`. The row comes from
  `SELECT *`, so it always carries a `role` key. The `"Client"` default
  therefore never applies, and the model returns the stored role.
- The status column's `DEFAULT 'Open'` never takes effect either. Every
  `INSERT` of the system names the `status` column. The form passes the
  literal `'Open'`. The importer passes `row.get("status", "Open")`, and its
  status column is known to exist at that point.
- The form's id is never cut short: `f"Q{count:04d}"` pads but does not
  truncate. It has five characters exactly while the number is at most
  9999 (`QueryIds.AppId`).
- The trigger's id is always five characters. `LPAD` cuts `next_id =
  10000` to `1000`, so the id after `Q9999` is `Q1000`
  (`QueryIds.TriggerRepeatsAfterQ9999`).

## Model

| member | source | states |
|---|---|---|
| `Text.Lower` | app.py:196-200 | `str.lower()` on the ASCII range: the result has the same length, holds no upper-case letter, and differs from the input only where an upper-case letter became its lower case |
| `Text.Decimal` | app.py:142 | the digits Python prints for a number: reading them back gives the number, and there is no leading zero |
| `Text.DecimalLength` | app.py:142 | a number's digits fit in k characters exactly when it is below 10^k |
| `Text.ZeroFill` | app.py:142 | the `04d` format pads on the left to at least the width, never cuts, and keeps the number's value |
| `Text.Lpad` | setup_database.py:126 | `LPAD(s, 4, '0')` is always exactly four characters: it zero-fills a shorter string and cuts a longer one to its first four |
| `Text.LexLeTotal` | setup_database.py:123 | any two ids are comparable in the string order `ORDER BY` uses |
| `Text.LexLeTransitive` | setup_database.py:123 | the string order is transitive |
| `Text.LexLeIsNumericOrder` | setup_database.py:118-124 | on digit strings of equal length, string order is numeric order, in both directions |
| `QueryIds.Suffix` | setup_database.py:118 | `CAST(SUBSTRING(query_id, 2) AS UNSIGNED)` reads the digits after the `Q` as a number below 10^(number of digits) |
| `QueryIds.SuffixRoundTrip` | setup_database.py:118 | zero-filling that number back to the id's width restores the id, so the cast loses only the padding |
| `QueryIds.AppId` | app.py:140-142 | the form's id is a `Q` id whose number is count + 1; it is five characters exactly when that number is at most 9999 |
| `QueryIds.AppIdInjective` | app.py:140-142 | different row counts give different form ids |
| `QueryIds.SameLengthIdOrder` | setup_database.py:118-124 | two ids of the same length compare as strings the way their numbers compare |
| `QueryIds.GreatestId` | setup_database.py:121-124 | `ORDER BY query_id DESC LIMIT 1` returns a stored id that is at least every stored id in string order |
| `QueryIds.TriggerNext` | setup_database.py:116-124 | `next_id` is the number of the string-greatest id plus one, so it is at least 1 |
| `QueryIds.TriggerId` | setup_database.py:116-126 | the trigger's id is always five characters; up to 9999 it carries `next_id`, beyond that only the first four digits of `next_id` |
| `QueryIds.TriggerNextIsNumericMax` | setup_database.py:118-124 | when all ids have one length, `next_id` exceeds every stored number and is one more than some stored number |
| `QueryIds.SchemesAgreeOnFirstIds` | setup_database.py:116-126 | when the stored ids are exactly `Q0001`..`Qn` (n ≤ 9998, any order), the trigger and the form choose the same id |
| `QueryIds.SchemesDisagreeAfterGap` | setup_database.py:116-126 | with the single row `Q(k+1)`, the trigger writes `Q(k+2)` while the form proposes `Q0002` |
| `QueryIds.AppIdCanRepeatStoredId` | app.py:140-142 | the form can propose an id that is already stored: with the single row `Q0002` it proposes `Q0002` |
| `QueryIds.TriggerRepeatsAfterQ9999` | setup_database.py:126 | once `Q9999` is stored among five-character ids, `next_id` is 10000 and the trigger writes `Q1000`, the form's id for the 1000th ticket |
| `Users.Register` | app.py:19-43 | succeeds exactly when no stored name equals the new one under the column collation; on refusal the table is unchanged; on success it is extended by exactly the row (name, digest of the password, role); names stay unique under the collation |
| `Users.CollidingNameRefused` | app.py:22-28 | a name that collates like a registered one is refused even when spelt differently, as `alice` after `Alice` under a case-insensitive collation |
| `Users.FindUser` | app.py:57-61 | `fetchone` finds a row exactly when some row matches both the name and the digest under the collation, and it returns such a row |
| `Users.LoginUser` | app.py:49-71 | login succeeds exactly when a stored row matches the name and the digest of the password under the collation; the row returned keeps its stored spelling and the role returned is its role |
| `Users.LoginChecksStoredDigest` | app.py:54-71 | with names unique under the collation, login under any spelling of a stored name succeeds exactly when that row's digest matches the password's, and it returns that row |
| `Users.RegisterThenLogin` | setup_database.py:160-162 | registering and then logging in with the same password yields the registered row and role, because the digest is a function of the password |
| `Users.RegisterThenWrongPassword` | app.py:54-71 | after registering, a password whose digest differs under the collation is refused |
| `Tickets.AssignedId` | setup_database.py:115-126 | the trigger keeps a non-empty supplied id; for an empty or NULL id it supplies a five-character `Q` id |
| `Tickets.Insert` | setup_database.py:90-127 | a row is stored exactly when its status is NULL, `Open` or `Closed` and its (trigger-assigned) id is not yet stored; the insert appends exactly that row, and it preserves the primary key, the status enum and the id shape |
| `Tickets.Submit` | app.py:140-148 | fails exactly when the form's id is already stored; otherwise it appends exactly one row with that id, status `Open`, creation time now and no closing time, keeping all other rows and the schema constraints |
| `Tickets.Close` | app.py:216-223 | rows with another id are unchanged; rows with that id become `Closed` with closing time now and keep every other field; the ids and the schema constraints are kept |
| `Tickets.CloseUnknownIdIsNoOp` | app.py:216-223 | closing an id no row carries leaves the table unchanged |
| `Tickets.CloseAgainReplacesTime` | app.py:216-223 | closing twice is the same as closing once with the second call's time: the status stays `Closed` and only the closing time is replaced |
| `Tickets.SubmitKeepsLifecycle` | app.py:144-148 | a submission keeps every row with "no closing time exactly when `Open`" |
| `Tickets.CloseKeepsLifecycle` | app.py:216-223 | closing keeps every row with "no closing time exactly when `Open`" |
| `Tickets.SequentialIdIsFresh` | app.py:140-142 | on a table filled only by the form, the next form id is not yet stored |
| `Tickets.SequentialSubmitSucceeds` | app.py:140-148 | on such a table every submission succeeds, and the table stays one where row i carries `Q(i+1)` |
| `Tickets.SequentialIdsAgreeWithTrigger` | setup_database.py:115-126 | on such a table of 1 to 9998 rows, the trigger would assign the same id as the form |
| `Tally.Group` | app.py:314-315 | `groupby(...).size()`: one entry per distinct key, each count equal to that key's occurrences, the counts summing to the number of keys |
| `Tally.SortByCount` | app.py:317 | `sort_values(ascending=False)`: counts in non-increasing order, the entries a permutation of the input |
| `Tally.SortByCountKeeps` | app.py:317 | sorting by count keeps the key set, the total, and distinct keys |
| `Tally.SortByKey` | app.py:264 | the grouped dates come out strictly ascending, the entries a permutation of the input with the same keys and total |
| `Tally.TallyReordered` | app.py:314-317 | a reordering with the same entries and distinct keys is still the tally of the same keys |
| `Analytics.Select` | app.py:196-200 | a row is kept exactly when its column, lower-cased, equals the lower-cased choice (a NULL cell never matches); the result is a sub-multiset of the rows |
| `Analytics.SelectCommutes` | app.py:196-200 | the status and heading filters give the same rows, in the same order, whichever runs first |
| `Analytics.SelectIdempotent` | app.py:196-200 | filtering again by the same choice changes nothing |
| `Analytics.SelectIgnoresCase` | app.py:196-200 | choices equal up to case select the same rows |
| `Analytics.SelectKeepsAllWhenAllMatch` | app.py:196-200 | when every row matches the choice, the filter returns the table unchanged, in the same order |
| `Analytics.FilterBy` | app.py:196-200 | `"All"` returns the rows unchanged; otherwise a row is kept exactly when its column matches the choice ignoring case; the kept rows are a sub-multiset of the input |
| `Analytics.Dashboard` | app.py:194-200 | a row is shown exactly when it passes both dropdowns; the shown rows are a sub-multiset of the table |
| `Analytics.CountExact` | app.py:246-247 | `len(df[df["status"] == s])`: the number of rows whose status cell is exactly `s` (its occurrences in the status column); hence at most the row count, zero exactly when no row has status `s`, and the row count exactly when every row has it |
| `Analytics.ExactCountWithinFilter` | app.py:246-247 | the exact count never exceeds the case-insensitive filter's size, and equals it when every status is one the enum admits |
| `Analytics.OpenClosedCover` | app.py:245-247 | open + closed is at most the total, and equals it exactly when every status is `Open` or `Closed` |
| `Analytics.Counts` | app.py:245-247 | the three metrics: the total is the row count, open + closed ≤ total, and equality holds exactly when no status is NULL or anything else |
| `Analytics.Headings` | app.py:314 | the heading keys are exactly the non-NULL headings of the rows |
| `Analytics.HeadingsCount` | app.py:314 | a heading occurs among the grouping keys once for every row whose heading cell holds it |
| `Analytics.HeadingCounts` | app.py:308-318 | each non-NULL heading of the filtered rows appears once, with its number of rows; the counts sum to the filtered rows with a heading and are non-increasing; the chart is empty exactly when no filtered row has a heading |
| `Analytics.OpenFilterExcludesClosed` | app.py:309-310 | on rows the status enum admits, the `Open` choice keeps only rows whose status is exactly `Open`, so no `Closed` ticket is charted |
| `Analytics.HeadingCountsExample` | app.py:308-318 | three tickets headed `Login Issue`, `Login Issue`, `Billing` chart as exactly `[("Login Issue", 2), ("Billing", 1)]` |
| `Analytics.CreatedDays` | app.py:263-264 | a day is among the grouping keys exactly when some row has a creation time on that day; rows without one are dropped |
| `Analytics.CreatedDaysCount` | app.py:263-264 | a day occurs among the grouping keys once for every row whose creation time falls on it |
| `Analytics.DailyTrend` | app.py:262-264 | one entry per distinct creation day, days strictly ascending, each count the number of rows created that day, the counts summing to the rows with a creation time |
| `Analytics.OpenLoadTrend` | app.py:280-283 | the same trend restricted to rows whose lower-cased status is `open` |
| `Analytics.SelectedDaysOccurLess` | app.py:280-283 | filtering rows never raises any day's number of creations |
| `Analytics.OpenLoadWithinDailyTrend` | app.py:262-283 | every day on the open-load trend is on the daily trend, with at most that day's count |
| `CsvImport.IndexOf` | import_csv.py:78-85 | a column is found exactly when present, at its first position |
| `CsvImport.RenameColumns` | import_csv.py:42-45 | `date_raised` becomes `query_created_time`, `date_closed` becomes `query_closed_time`, and every other column keeps its name and position |
| `CsvImport.RenameKeepsOthers` | import_csv.py:42-45 | renaming leaves every other column name in place, removes the old name, and puts the new name at the old name's position |
| `CsvImport.LegacyDateColumnsRenamed` | import_csv.py:42-45 | in a file that does not already use the new names, the time columns are found exactly where `date_raised` and `date_closed` were, and not at all where those were absent |
| `CsvImport.NormaliseStatus` | import_csv.py:48 | a cell changes exactly when it is `Opened`, which becomes `Open`; no cell is left `Opened` |
| `CsvImport.NormaliseStatusIdempotent` | import_csv.py:48 | normalising twice equals normalising once |
| `CsvImport.NormaliseColumn` | import_csv.py:48 | only the status column changes, each of its cells normalised; rows keep their number and width |
| `CsvImport.NormaliseColumnIdempotent` | import_csv.py:48 | the column replacement is idempotent and leaves no `Opened` |
| `CsvImport.Prepare` | import_csv.py:42-53 | the import goes on exactly when status and both time columns exist after renaming (a missing status is reported first); the prepared frame has the renamed columns, and its rows are the input rows with only the status column normalised |
| `CsvImport.PreparedHasNoOpened` | import_csv.py:48 | after preparing, no status cell reads `Opened` |
| `CsvImport.PrepareKeepsIds` | import_csv.py:42-48 | preparing never changes a row's `query_id` cell |
| `CsvImport.Cell` | import_csv.py:78-85 | a cell lookup fails exactly when the column is missing |
| `CsvImport.ToTicket` | import_csv.py:77-86 | the row's values are built exactly when the five `row[...]` columns exist; the id is the cell (empty for NaN), email, mobile, heading and description are the row's cells, the two times are the parsed cells, and the status defaults to `Open` only without a status column |
| `CsvImport.TryRow` | import_csv.py:52-87 | a row is stored exactly when its values can be built, the driver accepts any NaN or NaT it hands over (an empty closing time included), its status is in the enum and its assigned id is new; the stored row is the built one under that id, appended, preserving the schema |
| `CsvImport.CompleteRowIgnoresDriver` | import_csv.py:51-86 | a row with no empty required or status cell and no NaT time is stored or refused whatever the driver does with NaN and NaT |
| `CsvImport.RejectedMissingValueFails` | import_csv.py:51-90 | a row that hands the driver a NaN or NaT the driver refuses, such as an open ticket with an empty closing time, is counted as a failure |
| `CsvImport.Step` | import_csv.py:75-90 | each row increments exactly one counter: on success the table becomes the one the insert returned and `success` goes up by one; on failure the table is unchanged and `fail` goes up by one; the table grows by one row exactly on success and keeps its earlier rows |
| `CsvImport.Fold` | import_csv.py:73-90 | after the loop, success + fail is the number of rows, the table grew by exactly the successes, earlier rows are kept, and the schema is preserved |
| `CsvImport.FoldSnoc` | import_csv.py:75-90 | one more row is one more step of the loop, whatever the earlier rows did |
| `CsvImport.FailedRowSkipped` | import_csv.py:75-90 | a failing row leaves the table unchanged, counts one failure, and the loop continues |
| `CsvImport.ReimportAddsNothing` | import_csv.py:75-90 | when every row names an id already stored, nothing is added and every row counts as a failure |
| `CsvImport.ImportRows` | import_csv.py:73-90 | the loop computes the fold: the counters sum to the number of rows, the table grows by the successes, and the schema holds |
| `CsvImport.ImportCsv` | import_csv.py:38-93 | the import fails before any insert exactly when preparing fails; otherwise the report is the row-by-row fold of `Step` over the prepared rows, starting from the given table and zero counters, with the loop's guarantees |

## Left out

- The Streamlit pages, session state, widgets, success and warning messages, and matplotlib charts are UI. `Close` returns the new table; the "marked as Closed" message the source shows for any id is not modelled.
- The heading dropdown's option list (the sorted distinct headings offered for selection) is UI. A heading literally named `All` cannot be selected, as in the source.
- MySQL connections, cursors and commits, credentials, `.env` handling, dummy-data seeding, and locating and reading the CSV file are I/O. The CSV arrives as an already-read frame of string cells.
- SHA-256 is not modelled. `hash_password` is the function parameter `hash`. Only its being a function (the same password gives the same digest) is used.
- Timestamps are integers in seconds on the local clock. Dates are the day number `ts / 86400`. Datetime parsing and `errors="coerce"` are the parameter `parse`, with `None` for NaT.
- What the MySQL driver does with a pandas NaN or NaT is not read from any code here. It is the parameter `acceptsNaN` of `CsvImport.Io`, a verdict per row: store the missing values as NULL or raise. Empty cells, and empty or unparsable times, reach the driver unconverted. That includes the closing time: its `.where(notna(), None)` is applied to a datetime column, where pandas fills the gap with NaT again rather than `None`.
- `CsvImport.ToTicket` writes a missing value as `None`, so a row the driver accepts stores it as NULL, and an empty `query_id` then makes the trigger fire. That outcome is the `acceptsNaN` assumption, not something the importer's code decides.
- `CsvImport.TryRow` stores a row with an unconverted NaN or NaT only when `acceptsNaN` says so; the model does not fix which rows that is.
- The average resolution time is not modelled. It is floating-point arithmetic on timedeltas.
- The race between counting rows and inserting under concurrent submissions is a concurrency concern and is not modelled.
- The trigger on an empty table and ids that are not `Q` plus digits are not modelled. `Tickets.Insert` requires a non-empty id or a non-empty table of well-formed ids. The import requires the same of its rows (`CsvImport.ImportModelled`).
- `CsvImport.ImportModelled` asks for a non-empty table before the import whenever any row has an empty id. An import into an empty table where an earlier row is stored before the first empty id is therefore not covered, although the trigger would then have an id to read. Whether an earlier row is stored depends on the loop's own outcome, so the condition is stated on the starting table.
- Several MySQL coercions are not modelled:
  - Collation on `query_id`: `=` and the primary key compare ids exactly in the model. On `username` and `hashed_password` the collation is modelled, as the key-function parameter `collate` of `Users`.
  - Case-insensitive enum coercion: the model accepts `Open` and `Closed` exactly.
  - The `VARCHAR` length limits.
  - pandas reading an all-numeric column as numbers.
- `Text.Lower` lower-cases ASCII letters only; Python's `str.lower` also folds other scripts.
- A frame that holds a column name twice after renaming is not modelled as pandas does it. `CsvImport.IndexOf` takes the first occurrence.
- `Tally.SortByCount`: the order among equal counts is not specified. The source gets it from pandas' sort, which the model does not fix.
- The users table's `AUTO_INCREMENT` id and the `role` default are not modelled. Registration always supplies the role.
