# motokross check-in and results core, in Dafny

motokross records motocross check-ins. A marshal at a control point scans a
racer's QR code. The server accepts the scan when the racer has not been
accepted within the last `min_lap` seconds. It stores the event as a row
`(racer_id, kpp_id, timestamp, user)` and advances its in-memory map from
racer to last accepted timestamp. The results pages read the stored
history back. The results table runs the history through a second
deduplication filter and aligns each racer's events against the route,
column by column. The checkpoint board lists the passages at one
checkpoint, newest first, each with the interval to the passage before it.

This project models that core:

- `records.dfy` (module `Records`): the records and the three `ORDER BY` orderings. A query result is a sorted permutation of the table.
- `db.dfy` (module `Db`): the RACE table. It is a class over a sequence of rows that keeps the primary-key invariant. It models:
  - the insert and the wipe;
  - the queries;
  - the `get_events` filter loop, with a specification by prefix recursion and lemmas about it;
  - the state rebuilt at startup.
- `server.dfy` (module `Server`):
  - the check-in gate `validate`;
  - `mark_user` as a value function and as a method on the application object;
  - the invariants a run of check-ins keeps;
  - `wipe_race`;
  - the startup initialisation.
- `pages.dfy` (module `Pages`): `get_delta`, the results-table loop (nested loops over columns and racers, with the in-place `pop(0)`), the board loop, and the sorted checkpoint selector.
- `config.dfy` (module `Config`): `load_track`, `load_users` and `load_config` on an already parsed JSON document. A missing key is an error value.
- `auth.dfy` (module `Auth`): the user-map lookups of the authorization policy and the login check.
- `wrappers.dfy` (module `Wrappers`): `Option`, `Result` and `dict.get`.

The clock (`datetime.now()`) is a parameter of a check-in. Whether the disk write of an insert succeeds is a parameter too (`diskOk`). Time-of-day formatting and `str(timedelta)` are function parameters. Cells and board entries keep timestamps and deltas in seconds.

In three places the code does not do what one might expect:

- One might expect the state map to advance only when the insert succeeds. In `mark_user` the state advances after every accepted scan, even when `save_event` swallowed a failed insert (`Server.Mark`, `Server.App.MarkUser`).
- One might expect the startup state to be the latest timestamp per racer. `get_race_state` as written stores `row[1]`, the checkpoint id (see Findings). That comprehension is modelled as written by `Db.RaceStateAsWritten`, but the application starts from the corrected `Db.RaceState` (see the `Server.App.constructor` line under "## Left out"), so here the application does not follow the code.
- The gate rejects a gap of exactly `min_lap` (`>`), while the report filter keeps it (`>=`). Both are modelled as written.

In the first and third cases the model follows the code.

## Model

| member | source | states |
|---|---|---|
| Records.Sort | motokross/db.py:23-26 | a query's result is sorted by its `ORDER BY` and is a permutation of the table |
| Db.KeyUniquePermutation | motokross/db.py:12-16 | the primary-key invariant depends only on which rows are stored, so every query result keeps it |
| Db.SqliteDb.constructor | motokross/db.py:33-39 | the table opens holding the rows already on disk, with the key invariant |
| Db.SqliteDb.SaveEvent | motokross/db.py:60-66 | the insert fails (logged, swallowed, table unchanged) exactly when the key (racer, timestamp) is taken or the write fails; otherwise exactly one row with the given fields is appended; the key invariant is kept |
| Db.SqliteDb.GetEvents | motokross/db.py:68-80 | the dictionary is the filtered per-racer history; its keys are exactly the racers with a row; its key order is ascending racer id |
| Db.SqliteDb.Wipe | motokross/db.py:101-104 | the table is empty afterwards |
| Db.AllEvents | motokross/db.py:23 | every row, in (racer, timestamp) order |
| Db.RawEvents | motokross/db.py:87-92 | every row exactly once with all four fields, in non-decreasing timestamp order |
| Db.WithCheckpoint | motokross/db.py:26 | a row is selected iff its kpp_id is the given checkpoint |
| Db.KpEvents | motokross/db.py:94-99 | one (timestamp, racer) pair per row at the checkpoint, newest first; each pair comes from such a row, and every such row appears |
| Db.Validate | motokross/db.py:106-107 | a row is always kept when the racer differs from the previous kept row's or there is no previous row; otherwise it is kept iff it is at least `min_lap` seconds after the previous kept row, so an exact gap of `min_lap` is kept |
| Db.Kept | motokross/db.py:74-79 | the filter never adds rows, and the first row is always kept |
| Db.FilterRows | motokross/db.py:69-79 | the loop's `defaultdict` ends as the kept rows grouped per racer, and its insertion order is the order of first appearance |
| Db.FilterOne | motokross/db.py:75-79 | one iteration keeps the loop invariant: `prev_id`/`prev_ts` are the last kept row and the dictionary groups the rows kept so far |
| Db.FilterStep | motokross/db.py:76-79 | the specification of one iteration: kept rows, grouped lists and key order advance exactly as the loop body does |
| Db.FirstSeenStep | motokross/db.py:76-77 | a racer seen for the first time is always kept and becomes a new key; a racer seen before is already a key |
| Db.EventsKeyOrder | motokross/db.py:69-77 | the keys of `get_events` are the racers with rows, in strictly ascending id order |
| Db.FirstSeenSorted | motokross/db.py:23 | in (racer, timestamp) order, racers first appear in increasing id order |
| Db.KeptRacers | motokross/db.py:76 | every racer with a row keeps at least one row, since `prev_id != racer_id` holds at its first row |
| Db.KeptPoints | motokross/db.py:76-77 | per racer, the kept events are a subsequence of its events, and its first event is kept |
| Db.LastKeptIsSameRacer | motokross/db.py:76-79 | in (racer, timestamp) order, the last kept row is the baseline of the next row of the same racer |
| Db.KeptStep | motokross/db.py:76-79 | a later row of a racer is kept iff it is at least `min_lap` after that racer's last kept event; dropped rows do not move the baseline |
| Db.KeptGap | motokross/db.py:106-107 | consecutive kept events of a racer are at least `min_lap` apart |
| Db.PointsIncreasing | motokross/db.py:12-23 | under the primary key and (racer, timestamp) order, each racer's events have strictly increasing timestamps |
| Db.EventsPerRacer | motokross/db.py:68-80 | for each racer with rows: it is a key, its list is a subsequence of its events in increasing time, it starts with the racer's first event, and consecutive entries are at least `min_lap` apart |
| Db.RaceStateAsWritten | motokross/db.py:82-85 | as written: the keys are exactly the racers with rows, and each racer maps to the checkpoint id of its latest row (the row whose timestamp the corrected state keeps), not to a timestamp |
| Db.LastCheckpoint | motokross/db.py:85 | the comprehension over `row[1]`: the keys are the racers of the rows, and each value is the checkpoint of the same row whose timestamp the `row[2]` comprehension keeps |
| Db.RaceStateAsWrittenHoldsCheckpoint | motokross/db.py:85 | as written, the rebuilt state maps a racer to its checkpoint id; the corrected state maps it to the timestamp |
| Db.RaceState | motokross/db.py:82-85 | corrected: the keys are exactly the racers with rows, and each maps to its largest stored timestamp |
| Db.LatestTs | motokross/db.py:85 | the comprehension's keys are the racers of the rows, and each value is a timestamp of one of that racer's rows |
| Db.LatestTsIsMax | motokross/db.py:23-85 | over rows in (racer, timestamp) order, the last assignment per racer is its largest timestamp |
| Db.WipedStoreIsEmpty | motokross/db.py:28 | after a wipe every query (all events, raw events, checkpoint events, filtered events, state) returns nothing |
| Pages.GetDelta | motokross/pages.py:18-22 | the text is empty exactly when the previous timestamp is not positive; otherwise it is ` (` + formatted difference + `)` |
| Pages.AlignShape | motokross/pages.py:36-50 | after the columns, a racer has one cell per column; its count is the number of matched cells and is bounded by both the events and the columns; what is left of its list is the list minus the consumed prefix; `user_last_ts` is the last consumed timestamp (0 if none) |
| Pages.AlignNext | motokross/pages.py:36-50 | one more column advances each racer by exactly one column step |
| Pages.AlignPrefix | motokross/pages.py:36-50 | the cells after a prefix of the route are the prefix of the cells |
| Pages.AlignCell | motokross/pages.py:41-48 | cell j is matched iff the racer's next unconsumed event exists and carries column j's checkpoint; a matched cell shows that event with the delta from the previously consumed event, and no delta for the first |
| Pages.ColumnCell | motokross/pages.py:38-50 | the cell one column adds: matched iff the front event carries the column's checkpoint, with the delta from the last matched timestamp |
| Pages.VisitRacer | motokross/pages.py:38-50 | one racer at one column: that racer's row, list, count and last timestamp advance by one column step; no other racer's change |
| Pages.VisitColumn | motokross/pages.py:37-50 | the inner loop advances every racer by one column step and gives every racer a row |
| Pages.TableStep | motokross/pages.py:36-50 | the outer loop's invariant: after j columns each racer's state is its alignment against the first j control points |
| Pages.StatTable | motokross/pages.py:32-52 | one row per racer in dictionary order (none when the route is empty); each row's cells and size are the racer's alignment; each list in `data_dict` loses exactly its first `size` events |
| Pages.BuildRows | motokross/pages.py:52 | after the last column: one row per racer in dictionary order (none for an empty route), each holding that racer's whole-route cells and matched count; each list left in `data_dict` is the original minus its consumed prefix |
| Pages.TableResult | motokross/pages.py:46-52 | after the last column, rows and counts are the whole-route alignment and each remaining list is the original minus its consumed prefix |
| Pages.GetStatTable | motokross/pages.py:26-53 | rows in strictly ascending racer id; with a non-empty route every racer with rows has a row; each row is the alignment of that racer's filtered events |
| Pages.BoardIntervalText | motokross/pages.py:66-69 | the interval column shows `(--:--:--)` for the newest passage and `get_delta(p.timestamp, prev_ts)` for every later one |
| Pages.KpBoard | motokross/pages.py:64-71 | one entry per passage, in input order, with its racer and timestamp; the first carries the sentinel `(--:--:--)`; each later one the delta from its own timestamp to the previous (newer) entry's |
| Pages.BoardDeltasNonNegative | motokross/pages.py:66-67 | on a board sorted newest first, no shown delta is negative |
| Pages.BoardOfEvents | motokross/pages.py:64-71 | the loop over the checkpoint's passages builds the board: exactly the passages at that checkpoint, newest first, with the sentinel and the deltas |
| Pages.GetKpStatTable | motokross/pages.py:57-72 | with no checkpoint chosen the board is empty; otherwise it is the board of that checkpoint with non-negative deltas; the selector list is strictly sorted, holds exactly the configured control points, and repeats none |
| Pages.InsertUnique | motokross/pages.py:72 | adding a checkpoint to a strictly sorted selector list keeps it strictly sorted and adds exactly that checkpoint |
| Pages.SortedUnique | motokross/pages.py:72 | `sorted(list(set(...)))`: strictly increasing, same checkpoints |
| Pages.StrictlySortedDistinct | motokross/pages.py:72 | a strictly sorted selector list holds each checkpoint at most once, as the `set` does |
| Server.Validate | motokross/server.py:38-39 | accept iff more than `min_lap` seconds passed since the racer's state; an unseen racer is compared with 0; an exact gap of `min_lap` is rejected |
| Server.Mark | motokross/server.py:49-67 | on acceptance: reply marked, the row is appended exactly when the key is free and the write succeeds, and the state maps the racer to `now` either way, with the other racers unchanged; on rejection: the pause reply with `min_lap // 60` minutes and nothing changes |
| Server.MarkKeepsKeys | motokross/server.py:57-62 | a check-in keeps the table key-unique |
| Server.MarkKeepsConsistent | motokross/server.py:57-62 | with a non-negative window, a check-in keeps every stored row at or below its racer's state |
| Server.MarkKeepsSpacing | motokross/server.py:39 | with a consistent state, a check-in keeps each racer's stored events more than `min_lap` apart |
| Server.KeptAll | motokross/db.py:106-107 | rows whose consecutive same-racer gaps are at least `min_lap` pass the filter unchanged |
| Server.AdjacentGaps | motokross/db.py:23 | in a key-unique, spaced table sorted by (racer, timestamp), neighbouring rows of one racer are at least `min_lap` apart |
| Server.SpacedStoreIsNotFiltered | motokross/db.py:106-107 | a key-unique table whose racers' events are more than `min_lap` apart loses no row in `get_events` |
| Server.Run | motokross/server.py:57-62 | any sequence of check-ins keeps the key invariant, state consistency and spacing |
| Server.GatedRaceIsNotFiltered | motokross/server.py:38-39 | from a wiped race, every row stored through the gate survives the report filter |
| Server.App.constructor | motokross/server.py:169-171 | the window is the configured minutes times 60 and the state is the state rebuilt from the table; the state covers every stored row |
| Server.App.MarkUser | motokross/server.py:49-67 | the new table, new state and reply are those of `Mark` for the user's control point |
| Server.App.WipeRace | motokross/server.py:133-135 | the table and the state are both empty afterwards |
| Config.LoadTrack | motokross/config.py:46-52 | succeeds iff every entry has `id` and `title`; the two lists are as long as the route, element i being entry i's id and title; otherwise the error names the first missing key |
| Config.LoadUser | motokross/config.py:40-43 | succeeds iff username, password and control_point are present; they are copied unchanged and permissions default to the string "user"; the error names the first missing key in reading order |
| Config.LoadUsers | motokross/config.py:38-44 | succeeds iff every record loads, giving one user per record in order; otherwise the error of the first failing record |
| Config.UserMap | motokross/config.py:32 | the keys are exactly the usernames and each entry's key is its user's username |
| Config.UserMapLastWins | motokross/config.py:32 | with duplicated usernames, the later record wins |
| Config.LoadConfig | motokross/config.py:26-35 | `race` defaults to "race", `min_lap` to 5, users and track to empty; a user error is reported before a track error; the result carries the user map and the track lists |
| Auth.AuthorizedUserid | motokross/auth.py:16-17 | returns the identity iff it is a configured user, otherwise None |
| Auth.Contains | motokross/auth.py:27 | `sub in text` on strings holds iff `sub` occurs at some position |
| Auth.Permits | motokross/auth.py:24-27 | false for an unknown identity; otherwise exactly whether its permissions contain the permission (list membership or substring) |
| Auth.CheckCredentials | motokross/auth.py:30-35 | true iff the username is configured and the supplied password equals its password |
| Auth.DefaultPermissions | motokross/config.py:42 | a user loaded without permissions is permitted "user" and not "admin" |
| Auth.ConfiguredUserLogsIn | motokross/auth.py:30-35 | a username no later record repeats logs in with exactly its record's password |

## Left out

- Web plumbing is not modelled: aiohttp routing, Jinja templates, sessions and cookie encryption, the security setup, and `auth_middleware`'s redirects. It is framework glue.
- SQLite mechanics are not modelled: connections, `INIT_QUERY`, and the `check_base`/`init_db` recovery. The table is an in-memory sequence. `MAX_EVENTS` and `RACER_EVENTS` are never used.
- The clock is a parameter of the check-in. Whether a disk write succeeds is a parameter (`diskOk`).
- `get_time_str` and `str(timedelta)` are formatting-function parameters. The timezone is not modelled.
- File I/O is not modelled: `write_log`, log truncation in `wipe_race`, QR generation, the CSV export, JSON file reading, argparse and `__main__`.
- Concurrency is not modelled. Handlers run one after another.
- Racer-id types: `mark_user` keys the state by the URL string, while `get_race_state` yields integer keys. The model uses one integer id type.
- Checkpoint-id types: `load_track` and `load_users` copy the JSON values unchanged, and the results table compares a route id with a `kpp_id` read back from a TEXT column. With numeric ids in the configuration no cell would match. The model assumes string checkpoint ids.
- Server.App.constructor: the application starts from the corrected state `Db.RaceState`, not from `get_race_state()` as written. As written, the startup state holds checkpoint ids under integer keys. Because `mark_user` looks racers up by their URL string, those entries are never consulted: after a restart every racer is compared with 0 until its next accepted scan.
- Records.Sort: a query result is one sorted permutation. The order among rows that tie under the `ORDER BY` is left unspecified, as in SQL.
- Server.Validate: the default argument `min_lap=600` is not modelled, because every caller passes the window.
- Server.App.MarkUser: the reply is the racer and the minutes. The reply's text and image name are not modelled.
- Config.LoadConfig: `min_lap` is an integer here. A non-integer JSON value is not modelled.
- Config.LoadUser: `permissions` is either a string or a list of names. Other JSON values are not modelled.
- The `Pages` row `size` is the count of matched cells. The rendered cell strings are derivable with `CellText`, which carries no contract. The board's interval text is `IntervalText`, related to `get_delta` by `Pages.BoardIntervalText`.

## Findings

| source | as written | input that shows it | evidently intended | confidence | as-written member | corrected member |
|---|---|---|---|---|---|---|
| motokross/db.py:85 | `{row[0]: row[1] ...}` over `ALL_EVENTS`, whose second column is `kpp_id`, so the startup state maps each racer to its last checkpoint id | one row `(7, "A", 1000, "u")` gives state `{7: "A"}`. In the source the key is the integer 7, while `mark_user` looks up the string `"7"`, so the entry is never read and racer 7 is compared with 0 after a restart; with matching keys the gate would compute `timestamp - "A"` | `row[2]`, the timestamp: each racer maps to its latest timestamp (`{7: 1000}`) | not executed | Db.RaceStateAsWritten | Db.RaceState |

The as-written comprehension is `Db.RaceStateAsWritten`. The lemma `Db.RaceStateAsWrittenHoldsCheckpoint` evaluates both versions on the example row. The application's constructor uses the corrected `Db.RaceState`, whose contract states that each racer's value is its largest timestamp (see the `Server.App.constructor` line under Left out).
