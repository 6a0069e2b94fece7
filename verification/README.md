# chorez persistence layer — Dafny model

chorez is a personal task and time tracker. Its persistence layer (`Database` in
`src/chorez/database.py`) decides whether an incoming task or time entry is a new row or
an update to an existing one. This project models that layer as pure functions over
finite tables:

- **`save_task`** (`TaskStore.SaveTask`) first normalises the tags: each one is
  lower-cased, then the list is sorted ascending. It then looks the task up by its
  identity key, `(name, source_id, source_url)`. The lookup uses the null-aware
  comparison `_eq`. If a row matches, the task adopts that row's id and replaces its
  fields. If the task claims a different id, the save fails with "ID mismatch".
  Otherwise the task is written under its own id, or under a fresh id when it has none.
- **`save_time_entry`** (`TimeEntryStore.SaveTimeEntry`) follows the same rules. Here a
  row matches when it has the same id, or the same task and the same start. Re-submitting
  an open interval with `end` set therefore closes it instead of adding a second row.
- **`_eq`** (`Sql.NullAwareEq`) means `col IS NULL` when the value is None, and
  `col = value` otherwise.
- **`list_tasks`, `list_time_entries` and `clear_tasks`** (`TaskStore.ListTasks`,
  `TimeEntryStore.ListTimeEntries`, `TaskStore.ClearTasks`) take the filter as a
  predicate. The task listing is ordered by id, largest first. The entry listing is
  ordered by start, latest first. `clear_tasks` returns the number of rows it deleted.

A table is a `map<int, Task>` (or `map<int, TimeEntry>`) from row id to row. Every
stored row carries its own id (`Models.TasksKeyed`, `Models.EntriesKeyed`). No two
task rows share an identity key (`TaskStore.IdentityUnique`). A save returns
`Success((new table, saved row))` or `Failure(IdMismatch)`. A failure carries no table,
so the caller's table is left exactly as it was; this models the exception raised
before `commit`. Timestamps are integers.

Fresh ids follow SQLite's rule for an integer primary key: one more than the largest
id in use, or 1 in an empty table (`Keys.FreshId`). The repository's test relies on this
rule when it expects ids 1 and 2.

Modules: `Wrappers` (Option, Result), `Sorting` (a generic insertion sort and the
uniqueness of sorted arrangements), `Tags` (normalisation), `Keys` (id sets, the
fresh-id rule, `ORDER BY id DESC`), `Sql` (`_eq`), `Models` (entities and tables),
`TaskStore`, `TimeEntryStore`, and `Scenarios` (the repository's database test replayed
on the model).

## Model

| member | source | states |
|---|---|---|
| Sql.NullAwareEq | src/chorez/database.py:136-140 | `_eq(col, v)` holds exactly when column and value are equal as optional values: a None value matches only an absent column, and a present value means ordinary equality |
| Sql.PlainEqualityMissesNull | src/chorez/database.py:136-140 | a plain `col = NULL` never matches, while `_eq(col, None)` matches exactly the absent columns; this is why two tasks without a source id can share an identity |
| Tags.Lower | src/chorez/database.py:39-40 | `tag.lower()` maps each upper-case ASCII letter to the letter at the same place in the lower-case alphabet and keeps every other character, so the result has the same length, no upper-case letter, and equals an already lower-case tag |
| Tags.LowerAll | src/chorez/database.py:39-40 | position i of the result is `Lower` of tag i, for every position, so the list keeps its length and an already lower-case list is unchanged |
| Tags.StrLeIsTotalOrder | src/chorez/database.py:41 | Python's string order used by `sort()` is total, transitive and antisymmetric |
| Sorting.InsertionSort | src/chorez/database.py:41 | sorting yields an ascending sequence holding the same elements with the same multiplicities |
| Sorting.SortedUnique | src/chorez/database.py:41 | under a total order there is only one sorted arrangement of a given multiset of tags |
| Tags.Normalize | src/chorez/database.py:35-41 | the stored tags are all lower case, sorted ascending, and a rearrangement of the lower-cased input tags |
| Tags.NormalizeFixesNormalized | src/chorez/database.py:35-41 | normalisation leaves a list unchanged exactly when the list is already lower case and sorted |
| Tags.NormalizeIdempotent | src/chorez/database.py:35-41 | normalising twice gives the same list as normalising once, so re-saving a stored task keeps its tags |
| Tags.NormalizeIgnoresCaseAndOrder | src/chorez/database.py:35-41 | two tag lists that differ only in letter case and order normalise to the same list |
| Tags.NormalizeExample | src/chorez/database.py:39-41 | `["Foo", "asdf"]` is stored as `["asdf", "foo"]` |
| Keys.FreshId | src/chorez/database.py:63-64 | the id an insert receives is used by no row and exceeds every id in use; it is 1 in an empty table, and otherwise one more than the largest id in use |
| Keys.Descending | src/chorez/database.py:76 | `ORDER BY id DESC` lists every id exactly once, each larger than every id after it |
| Keys.FilteredDescending | src/chorez/database.py:73-76 | a filtered id-descending query returns exactly the ids of the matching rows, each once, largest first |
| TaskStore.SaveTask | src/chorez/database.py:30-67 | a successful save writes the candidate, with normalised tags and an assigned id, into that one row and keeps any explicit id; a failure is always "ID mismatch", and only occurs when the candidate's explicit id differs from that of a row its identity key matches |
| TaskStore.SaveTaskNormalizesTags | src/chorez/database.py:39-41 | the saved task's tags are normalised and are a rearrangement of the lower-cased candidate tags; already-normalised tags are stored as given |
| TaskStore.SaveTaskPreservesValid | src/chorez/database.py:45-64 | after a save, every row still carries its own id and no two rows share an identity key |
| TaskStore.SaveTaskMergesIdentityMatch | src/chorez/database.py:45-62 | a candidate whose identity key matches a row, and which carries no id or that row's id, adopts that row's id and replaces its fields; the set of ids stays the same and every other row is unchanged |
| TaskStore.SaveTaskFailsIffIdMismatch | src/chorez/database.py:58-60 | with unique identity keys, a save fails exactly when the candidate carries an explicit id and its identity key matches a row with a different id |
| TaskStore.SaveTaskInsertsNew | src/chorez/database.py:63-64 | a transient candidate whose identity key matches no row adds exactly one row under a fresh id (1 in an empty table) and leaves the other rows unchanged |
| TaskStore.SaveTaskResaveKeepsId | tests/test_database.py:28-33 | re-saving a stored task after an edit keeps its id and the set of rows, even when the edit changes its identity key, as long as no other row has the new key |
| TaskStore.SaveTaskIdempotent | src/chorez/database.py:35-67 | saving the task a save returned, into the table that save produced, changes nothing |
| TaskStore.SaveTaskResolvesIdentity | src/chorez/database.py:46-62 | two different transient candidates with the same identity key are saved into the same row: the second save gets the first one's id and adds no row |
| TaskStore.ListTasks | src/chorez/database.py:69-78 | the listing holds exactly the stored rows that satisfy the filter, each once, in strictly descending id order |
| TaskStore.ClearTasks | src/chorez/database.py:80-87 | deletion keeps exactly the rows that fail the filter, unchanged, and reports the number of rows that satisfied it; a table with unique identity keys still has them afterwards |
| TaskStore.ClearCountMatchesList | src/chorez/database.py:80-87 | the count `clear_tasks` reports equals the length of `list_tasks` for the same filter, afterwards that filter lists nothing, and the store invariant still holds |
| TimeEntryStore.SaveTimeEntry | src/chorez/database.py:89-122 | a successful save writes the candidate into the one row of its assigned id and keeps any explicit id; the one failure modelled is "ID mismatch", which occurs only when a row that matches by id or by (task, start) has an id other than the candidate's explicit one |
| TimeEntryStore.SaveTimeEntryPreservesKeyed | src/chorez/database.py:113-119 | after a save, every stored entry still carries its own id |
| TimeEntryStore.SaveTimeEntryKeepsIntervalsUnique | src/chorez/database.py:98-119 | saving a transient entry never creates two rows for the same task and start |
| TimeEntryStore.SaveTimeEntryClosesInterval | src/chorez/database.py:99-117 | re-submitting a transient entry with the same task and start updates a row that logs that interval, which then takes the new `end`; no row is added, and with unique intervals the updated row is the original one |
| TimeEntryStore.SaveTimeEntryRejectsIdMismatch | src/chorez/database.py:113-115 | an explicit id that names no row, on an entry whose (task, start) a row already logs, fails with "ID mismatch" |
| TimeEntryStore.SaveTimeEntryUpdatesById | src/chorez/database.py:99-117 | an entry carrying the id of a stored row replaces that row in place when no other row logs its (task, start) |
| TimeEntryStore.SaveTimeEntryInsertsNew | src/chorez/database.py:118-119 | a transient entry whose (task, start) no row logs adds exactly one row under a fresh id and leaves the others unchanged |
| TimeEntryStore.ListTimeEntries | src/chorez/database.py:124-133 | the listing holds exactly the stored entries that satisfy the filter, each once, in non-increasing start order |
| TimeEntryStore.ClosingLeavesActiveListing | src/chorez/cli/time.py:54-68 | closing the only open interval of a (task, start) removes it from the `end IS NULL` listing and puts it in the complementary listing, without adding a row |
| TimeEntryStore.CascadeDelete | src/chorez/database.py:20-24 | (assumption: the schema declares ON DELETE CASCADE) deleting tasks removes exactly the entries logged against them and leaves the other entries unchanged |
| TimeEntryStore.CascadeHidesEntriesOfDeletedTasks | src/chorez/database.py:80-87 | after the cascade, no listing shows an entry of a deleted task, and every matching entry of a remaining task is still listed |
| TimeEntryStore.ClearTasksHidesTheirEntries | src/chorez/database.py:80-87 | after `clear_tasks` and the cascade, every listed entry belongs to a task the clear kept (or to no stored task), and every matching entry of a kept task is still listed |
| Scenarios.ClearEverythingEmpties | tests/test_database.py:7 | `clear_tasks()` with the empty filter deletes every row, whatever the table held, and reports their number |
| Scenarios.FirstSaveGetsIdOne | tests/test_database.py:7-26 | after the opening clear, the first task saved gets id 1 and keeps its already-normalised tags; listing then shows exactly that task |
| Scenarios.RenameKeepsIdOne | tests/test_database.py:28-37 | after renaming, saving the task again keeps id 1 and one row, and the listing shows the renamed task |
| Scenarios.SecondSaveGetsIdTwo | tests/test_database.py:39-48 | a second, different task gets id 2, and the listing shows it before the first task |

## Left out

- SQLAlchemy's engine, session, `inspect` and `merge` mechanics are not modelled
  (src/chorez/database.py:13-28). `state.transient` is reduced to "the id is None". With
  that reduction, the `else: merge` branch at lines 65-66 cannot be reached.
- A candidate that carries an id but whose identity key matches no row reaches
  `session.add` (src/chorez/database.py:63-64 and 118-119), not `merge`. The model writes
  the whole candidate under that id. For a task, it updates the row if the id exists and
  inserts it otherwise. For a time entry no row has that id on this path, because the
  lookup also matches by id (line 103), so the model inserts it. SQLAlchemy's stale-row error, for a detached object whose row has meanwhile
  been deleted, is not modelled.
- TaskStore.SaveTask: on the `session.add` path for a candidate that carries an id, the
  source writes only the columns whose change SQLAlchemy recorded. `tags` is a plain JSON
  column (src/chorez/models.py:33), so edits made to the list in place are not recorded.
  That includes the lower-casing and sorting at src/chorez/database.py:39-41. Take a listed
  task with tags `["a"]`, rename it, append `"B"` to its tags and save it: the source
  stores only the new name and keeps `["a"]`, while the model stores `["a", "b"]`. When
  nothing was recorded and the row has been deleted, the source writes nothing, while the
  model inserts the row. The model has no change tracking, so it always writes the whole
  candidate.
- TimeEntryStore.SaveTimeEntry: on the `session.add` path (src/chorez/database.py:118-119)
  no row has the entry's id, because the lookup also matches by id (line 103). A transient
  entry is inserted under its id, as in the model. For a detached entry whose row is gone,
  the source raises SQLAlchemy's stale-row error or writes nothing, while the model
  inserts it.
- `limit(1)`: when several rows match, the model takes the one with the smallest id.
  The source takes whichever row the database returns first. The task lemmas assume
  unique identity keys, so at most one row matches. The time-entry lemmas that depend on
  the choice say so in their preconditions.
- TimeEntryStore.SaveTimeEntryKeepsIntervalsUnique: covers only entries without an id.
  With an explicit id, the row matched by id can be updated even though another row
  already logs the same (task, start). The source does not exclude this.
- Filters are total predicates. Parsing the SQL filter text, malformed-filter errors and
  SQL injection are not modelled. The empty string means "every row". `clear_tasks` hands
  its default empty filter to the store without the `if filter:` guard that the listings
  have. The model gives it the same every-row meaning.
- Tags.Lower: models Python's `str.lower` on ASCII letters only. Unicode case mapping is
  not modelled.
- Python string order is modelled as lexicographic order by character code (`Tags.StrLe`).
- Integer ids are unbounded. SQLite's rule for a table whose largest rowid is 2^63-1 is
  not modelled. Timestamps are integers; time zones and `dateparser` are not modelled.
- The source mutates the caller's object. It normalises the tags in place, even when the
  save fails with ID mismatch (src/chorez/database.py:39-41 run before the check at
  59-60). It sets `id` only when the save goes ahead (line 61). The model returns the saved
  row instead.
- Eager loading of the Task/TimeEntry relationship, and the columns `database.py` never
  reads (priority, difficulty, is_imported), are not modelled. A merge carries them over
  unchanged with the rest of the candidate.
- A time entry whose `task_id` names no task is saved by the model. Under the foreign key
  that `database.py` switches on (src/chorez/database.py:20-24), the source's commit would
  fail with an integrity error instead. The model's entry table does not see the task
  table; the CLI checks that the task exists before saving (src/chorez/cli/time.py:35-39).
- Cascade deletion of time entries is a stated assumption (`TimeEntryStore.CascadeDelete`).
  The relationship and its `ON DELETE CASCADE` are not part of this model.
- The CLI's tag add/remove edit is not part of this model.
- The CLI layers, settings loading, the `Chorez` wrapper, printing and exit codes are
  I/O glue and are not modelled. So is the older `dataset`-based revision.
- tests/test_database.py:49-52 expect the second task at index 1 and check its tags,
  name and description there. With
  `ORDER BY id DESC` (src/chorez/database.py:76), the newest task comes first, and the
  model proves that order (`Scenarios.SecondSaveGetsIdTwo`). These index-1 assertions
  predate the ordering and are not encoded.
- Transactions and concurrency are not modelled. Each operation is one function
  application, which is atomic by construction.
- The identity-key uniqueness is an invariant that saves preserve, not a schema
  constraint. Saves return the saved row, where the source returns None and updates the
  argument. A time entry's start is always supplied by the caller.
