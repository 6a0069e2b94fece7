/** `save_time_entry` and `list_time_entries` over the time-entry table. */
module TimeEntryStore {
  import opened Wrappers
  import opened Models
  import opened Sql
  import opened Keys
  import opened Sorting
  import opened TaskStore

  /** The lookup condition of `save_time_entry`: the same id, or the same task and start,
      each compared with `_eq` (task id and start are never NULL). */
  predicate EntryMatches(row: TimeEntry, cand: TimeEntry) {
    || NullAwareEq(row.id, cand.id)
    || (NullAwareEq(Some(row.taskId), Some(cand.taskId)) && NullAwareEq(Some(row.start), Some(cand.start)))
  }

  /** The two entries log the same task from the same moment. */
  predicate SameInterval(a: TimeEntry, b: TimeEntry) {
    a.taskId == b.taskId && a.start == b.start
  }

  /** No two rows log the same task from the same moment. */
  predicate IntervalsUnique(e: EntryTable) {
    forall i, j :: i in e && j in e && i != j ==> !SameInterval(e[i], e[j])
  }

  /** The ids of the rows the lookup of `save_time_entry` finds for `cand`. */
  function EntryMatchesIn(e: EntryTable, cand: TimeEntry): set<int> {
    set k | k in e && EntryMatches(e[k], cand)
  }

  /** `save_time_entry`: look the candidate up by id or by (task, start), then merge it
      into the row found (adopting that row's id), or fail when the candidate claims
      another id, or insert it under its own id, or under a fresh id when it has none.
      When several rows match, the one with the smallest id is taken. A failure carries
      no table: the caller's table is left as it was. */
  function SaveTimeEntry(e: EntryTable, cand: TimeEntry): (r: Result<(EntryTable, TimeEntry), Error>)
    ensures r.Success? ==>
      && r.value.1.id.Some?
      && r.value.1 == cand.(id := r.value.1.id)
      && r.value.0 == e[r.value.1.id.value := r.value.1]
      && (cand.id.Some? ==> r.value.1.id == cand.id)
    ensures r.Failure? ==>
      && r.error == IdMismatch
      && cand.id.Some?
      && exists k :: k in e && EntryMatches(e[k], cand) && k != cand.id.value
  {
    var matches := EntryMatchesIn(e, cand);
    if matches != {} then
      var existing := Min(matches);
      if cand.id.Some? && cand.id.value != existing then
        Failure(IdMismatch)
      else
        var saved := cand.(id := Some(existing));
        Success((e[existing := saved], saved))
    else
      var id := if cand.id.Some? then cand.id.value else FreshId(e.Keys);
      var saved := cand.(id := Some(id));
      Success((e[id := saved], saved))
  }

  /** Every stored row keeps carrying its own id after a save. */
  lemma SaveTimeEntryPreservesKeyed(e: EntryTable, cand: TimeEntry)
    requires EntriesKeyed(e)
    requires SaveTimeEntry(e, cand).Success?
    ensures EntriesKeyed(SaveTimeEntry(e, cand).value.0)
  {
  }

  /** Saving an entry without an id never makes two rows log the same task from the same
      moment. */
  lemma SaveTimeEntryKeepsIntervalsUnique(e: EntryTable, cand: TimeEntry)
    requires EntriesKeyed(e) && IntervalsUnique(e)
    requires cand.id == None
    ensures SaveTimeEntry(e, cand).Success?
    ensures IntervalsUnique(SaveTimeEntry(e, cand).value.0)
  {
    var (e', saved) := SaveTimeEntry(e, cand).value;
    var id := saved.id.value;
    var matches := EntryMatchesIn(e, cand);
    assert forall j :: j in e && j != id ==> !SameInterval(e[j], saved) by {
      if matches != {} {
        assert id in matches;
        forall j | j in e && j != id ensures !SameInterval(e[j], saved) {
          assert !SameInterval(e[j], e[id]);
        }
      } else {
        forall j | j in e && j != id ensures !SameInterval(e[j], saved) {
          assert j !in matches;
        }
      }
    }
  }

  /** Re-submitting an interval (same task, same start, no id) with `end` set updates a
      row that logs that interval instead of adding one, so closing an open interval
      creates no duplicate; when only one row logs it, that row is the one closed. */
  lemma SaveTimeEntryClosesInterval(e: EntryTable, cand: TimeEntry, k: int)
    requires EntriesKeyed(e)
    requires k in e && SameInterval(e[k], cand)
    requires cand.id == None
    ensures SaveTimeEntry(e, cand).Success?
    ensures SaveTimeEntry(e, cand).value.0.Keys == e.Keys
    ensures |SaveTimeEntry(e, cand).value.0| == |e|
    ensures var id := SaveTimeEntry(e, cand).value.1.id.value;
      && id in e && SameInterval(e[id], cand)
      && SaveTimeEntry(e, cand).value.0[id].end == cand.end
    ensures IntervalsUnique(e) ==> SaveTimeEntry(e, cand).value.1.id == Some(k)
  {
    var matches := EntryMatchesIn(e, cand);
    assert k in matches;
    var id := Min(matches);
    assert e.Keys + {id} == e.Keys;
    if IntervalsUnique(e) {
      assert SameInterval(e[id], e[k]);
    }
  }

  /** An explicit id that names no row, on an entry whose (task, start) some row already
      logs, is rejected with an id mismatch. */
  lemma SaveTimeEntryRejectsIdMismatch(e: EntryTable, cand: TimeEntry, k: int)
    requires EntriesKeyed(e)
    requires k in e && SameInterval(e[k], cand)
    requires cand.id.Some? && cand.id.value !in e
    ensures SaveTimeEntry(e, cand) == Failure(IdMismatch)
  {
    var matches := EntryMatchesIn(e, cand);
    assert k in matches;
    assert cand.id.value !in matches;
  }

  /** An entry carrying the id of a stored row updates that row in place when no other
      row logs its (task, start). */
  lemma SaveTimeEntryUpdatesById(e: EntryTable, cand: TimeEntry, j: int)
    requires EntriesKeyed(e)
    requires j in e && cand.id == Some(j)
    requires forall k :: k in e && k != j ==> !SameInterval(e[k], cand)
    ensures SaveTimeEntry(e, cand).Success?
    ensures SaveTimeEntry(e, cand).value.1.id == Some(j)
    ensures SaveTimeEntry(e, cand).value.0.Keys == e.Keys
    ensures SaveTimeEntry(e, cand).value.0[j] == cand
  {
    var matches := EntryMatchesIn(e, cand);
    assert j in matches;
    assert forall k :: k in matches ==> k == j;
    assert e.Keys + {j} == e.Keys;
  }

  /** An entry without an id whose (task, start) no row logs is inserted under a fresh
      id: exactly one row is added and the others are unchanged. */
  lemma SaveTimeEntryInsertsNew(e: EntryTable, cand: TimeEntry)
    requires EntriesKeyed(e)
    requires forall k :: k in e ==> !SameInterval(e[k], cand)
    requires cand.id == None
    ensures SaveTimeEntry(e, cand).Success?
    ensures SaveTimeEntry(e, cand).value.1.id == Some(FreshId(e.Keys))
    ensures |SaveTimeEntry(e, cand).value.0| == |e| + 1
    ensures forall k :: k in e ==> SaveTimeEntry(e, cand).value.0[k] == e[k]
    ensures e == map[] ==> SaveTimeEntry(e, cand).value.1.id == Some(1)
  {
    var matches := EntryMatchesIn(e, cand);
    assert forall k :: k !in matches;
  }

  /** `a` started no earlier than `b`: the order of `ORDER BY start DESC`. */
  function StartsNoEarlier(a: TimeEntry, b: TimeEntry): bool {
    a.start >= b.start
  }

  lemma StartsNoEarlierIsTotalPreorder()
    ensures TotalPreorder(StartsNoEarlier)
  {
  }

  /** `list_time_entries(filter)`: the rows satisfying the filter, latest start first,
      each once. */
  function ListTimeEntries(e: EntryTable, f: TimeEntry -> bool): (r: seq<TimeEntry>)
    requires EntriesKeyed(e)
    ensures forall x :: x in r ==> x.id.Some? && x.id.value in e && e[x.id.value] == x && f(x)
    ensures forall k :: k in e && f(e[k]) ==> e[k] in r
    ensures forall i, j :: 0 <= i < j < |r| ==> r[i].start >= r[j].start
    ensures Distinct(r)
    ensures |r| == |Matching(e, f)|
  {
    var ids := FilterIds(Descending(e.Keys), e, f);
    FilteredDescending(e, f, ids);
    assert forall i :: 0 <= i < |ids| ==> ids[i] in ids;
    SelectedRowsComplete(e, f, ids);
    var rows := Rows(ids, e);
    RowsOfDistinctIdsDistinct(e, ids);
    SelectedRowsStored(e, f, ids);
    StartsNoEarlierIsTotalPreorder();
    var r := InsertionSort(rows, StartsNoEarlier);
    PermutationKeepsElements(rows, r);
    r
  }

  /** Each row stored under a selected id is a stored row satisfying the filter. */
  lemma SelectedRowsStored(e: EntryTable, f: TimeEntry -> bool, ids: seq<int>)
    requires EntriesKeyed(e)
    requires forall k :: k in ids <==> k in e && f(e[k])
    requires forall i :: 0 <= i < |ids| ==> ids[i] in e
    ensures forall x :: x in Rows(ids, e) ==> x.id.Some? && x.id.value in e && e[x.id.value] == x && f(x)
  {
    var rows := Rows(ids, e);
    forall x | x in rows ensures x.id.Some? && x.id.value in e && e[x.id.value] == x && f(x) {
      var i :| 0 <= i < |rows| && rows[i] == x;
      var k := ids[i];
      assert k in ids && k in e;
      assert x == e[k] && e[k].id == Some(k);
    }
  }

  /** Rows stored under distinct ids are distinct rows. */
  lemma RowsOfDistinctIdsDistinct(e: EntryTable, ids: seq<int>)
    requires EntriesKeyed(e)
    requires forall i :: 0 <= i < |ids| ==> ids[i] in e
    requires StrictlyDescending(ids)
    ensures Distinct(Rows(ids, e))
  {
    var rows := Rows(ids, e);
    forall i, j | 0 <= i < j < |rows| ensures rows[i] != rows[j] {
      assert rows[i] == e[ids[i]] && rows[j] == e[ids[j]];
      assert rows[i].id == Some(ids[i]) && rows[j].id == Some(ids[j]);
    }
  }

  /** Closing the only open interval of a task moves it from the `end IS NULL` listing
      to the complementary one, without adding a row. */
  lemma ClosingLeavesActiveListing(e: EntryTable, cand: TimeEntry, k: int)
    requires EntriesKeyed(e) && IntervalsUnique(e)
    requires k in e && IsActive(e[k]) && SameInterval(e[k], cand)
    requires cand.id == None && cand.end.Some?
    ensures e[k] in ListTimeEntries(e, IsActive)
    ensures SaveTimeEntry(e, cand).Success?
    ensures |SaveTimeEntry(e, cand).value.0| == |e|
    ensures EntriesKeyed(SaveTimeEntry(e, cand).value.0)
    ensures forall x :: x in ListTimeEntries(SaveTimeEntry(e, cand).value.0, IsActive) ==> x.id != Some(k)
    ensures SaveTimeEntry(e, cand).value.0[k] in ListTimeEntries(SaveTimeEntry(e, cand).value.0, x => !IsActive(x))
  {
    SaveTimeEntryClosesInterval(e, cand, k);
    SaveTimeEntryPreservesKeyed(e, cand);
  }

  /** ASSUMPTION: the entry table's foreign key to tasks is declared `ON DELETE CASCADE`
      (foreign keys are switched on for every connection), so deleting tasks deletes the
      entries logged against them. The schema itself is not part of this model. */
  function CascadeDelete(e: EntryTable, removed: set<int>): (r: EntryTable)
    ensures forall k :: k in r <==> k in e && e[k].taskId !in removed
    ensures forall k :: k in r ==> r[k] == e[k]
    ensures EntriesKeyed(e) ==> EntriesKeyed(r)
  {
    map k | k in e && e[k].taskId !in removed :: e[k]
  }

  /** After the cascade no listing shows an entry of a deleted task, and every entry of a
      remaining task is still listed. */
  lemma CascadeHidesEntriesOfDeletedTasks(e: EntryTable, removed: set<int>, f: TimeEntry -> bool)
    requires EntriesKeyed(e)
    ensures forall x :: x in ListTimeEntries(CascadeDelete(e, removed), f) ==> x.taskId !in removed
    ensures forall k :: k in e && e[k].taskId !in removed && f(e[k]) ==>
      e[k] in ListTimeEntries(CascadeDelete(e, removed), f)
  {
    var r := CascadeDelete(e, removed);
    var l := ListTimeEntries(r, f);
    forall x | x in l ensures x.taskId !in removed {
      var i :| 0 <= i < |l| && l[i] == x;
    }
  }

  /** `clear_tasks` followed by the cascade: no listing shows an entry logged against a
      task the clear deleted, and every entry of a task it kept is still listed. */
  lemma ClearTasksHidesTheirEntries(t: TaskTable, e: EntryTable, f: Task -> bool, g: TimeEntry -> bool)
    requires EntriesKeyed(e)
    ensures forall x :: x in ListTimeEntries(CascadeDelete(e, Matching(t, f)), g) ==>
      x.taskId !in t || x.taskId in ClearTasks(t, f).0
    ensures forall k :: k in e && e[k].taskId in ClearTasks(t, f).0 && g(e[k]) ==>
      e[k] in ListTimeEntries(CascadeDelete(e, Matching(t, f)), g)
  {
    CascadeHidesEntriesOfDeletedTasks(e, Matching(t, f), g);
  }
}
