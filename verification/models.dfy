/** The two persisted entities and the tables that hold them. */
module Models {
  import opened Wrappers

  /** A task row. `id` is None while the task is transient (not yet saved). The
      identity of a task is its name together with its external source id and url. */
  datatype Task = Task(
    id: Option<int>,
    name: string,
    tags: seq<string>,
    description: string,
    sourceId: Option<string>,
    sourceUrl: Option<string>
  )

  /** A time interval logged against a task; `end` is None while the interval is open.
      Timestamps are whole numbers. */
  datatype TimeEntry = TimeEntry(
    id: Option<int>,
    taskId: int,
    start: int,
    end: Option<int>
  )

  /** The one error the save operations raise: an explicit id that contradicts the row
      the lookup resolved to (`ValueError("ID mismatch")`). */
  datatype Error = IdMismatch

  /** The tasks table: row id to row. */
  type TaskTable = map<int, Task>

  /** The time-entry table: row id to row. */
  type EntryTable = map<int, TimeEntry>

  /** Every stored task carries the id it is stored under. */
  predicate TasksKeyed(t: TaskTable) {
    forall k :: k in t ==> t[k].id == Some(k)
  }

  /** Every stored time entry carries the id it is stored under. */
  predicate EntriesKeyed(e: EntryTable) {
    forall k :: k in e ==> e[k].id == Some(k)
  }

  /** An open ("active") interval, the rows the filter `end IS NULL` selects. */
  predicate IsActive(entry: TimeEntry) {
    entry.end.None?
  }
}
