/** `save_task`, `list_tasks` and `clear_tasks` over the tasks table. */
module TaskStore {
  import opened Wrappers
  import opened Models
  import opened Sql
  import opened Tags
  import opened Keys

  /** The lookup condition of `save_task`: name, source id and source url each compared
      with `_eq` (the name column is never NULL). */
  predicate SameIdentity(row: Task, cand: Task) {
    && NullAwareEq(Some(row.name), Some(cand.name))
    && NullAwareEq(row.sourceId, cand.sourceId)
    && NullAwareEq(row.sourceUrl, cand.sourceUrl)
  }

  /** No two rows share an identity key. */
  predicate IdentityUnique(t: TaskTable) {
    forall i, j :: i in t && j in t && i != j ==> !SameIdentity(t[i], t[j])
  }

  /** The invariant every save keeps: rows carry their own id, identity keys are unique. */
  predicate Valid(t: TaskTable) {
    TasksKeyed(t) && IdentityUnique(t)
  }

  /** The ids of the rows the lookup of `save_task` finds for `cand`. */
  function IdentityMatches(t: TaskTable, cand: Task): set<int> {
    set k | k in t && SameIdentity(t[k], cand)
  }

  /** Under the invariant, a row sharing the candidate's identity key is the only match. */
  lemma OnlyIdentityMatch(t: TaskTable, cand: Task, k: int)
    requires IdentityUnique(t)
    requires k in t && SameIdentity(t[k], cand)
    ensures IdentityMatches(t, cand) == {k}
  {
    forall j | j in IdentityMatches(t, cand) ensures j == k {
      assert SameIdentity(t[j], t[k]);
    }
  }

  /** `save_task`: normalise the tags, look the candidate up by identity key, then merge it
      into the row found (adopting that row's id), or fail when the candidate claims another
      id, or write it under its own id, or insert it under a fresh id when it has none.
      A failure carries no table: the caller's table is left as it was. */
  function SaveTask(t: TaskTable, cand: Task): (r: Result<(TaskTable, Task), Error>)
    ensures r.Success? ==>
      && r.value.1.id.Some?
      && r.value.1 == cand.(id := r.value.1.id, tags := Normalize(cand.tags))
      && r.value.0 == t[r.value.1.id.value := r.value.1]
      && (cand.id.Some? ==> r.value.1.id == cand.id)
    ensures r.Failure? ==>
      && r.error == IdMismatch
      && cand.id.Some?
      && exists k :: k in t && SameIdentity(t[k], cand) && k != cand.id.value
  {
    var normalized := cand.(tags := Normalize(cand.tags));
    var matches := IdentityMatches(t, normalized);
    if matches != {} then
      var existing := Min(matches);
      if cand.id.Some? && cand.id.value != existing then
        Failure(IdMismatch)
      else
        var saved := normalized.(id := Some(existing));
        Success((t[existing := saved], saved))
    else
      var id := if cand.id.Some? then cand.id.value else FreshId(t.Keys);
      var saved := normalized.(id := Some(id));
      Success((t[id := saved], saved))
  }

  /** The tags of a saved task are lower case and sorted, and are the candidate's tags
      lower-cased and rearranged. */
  lemma SaveTaskNormalizesTags(t: TaskTable, cand: Task)
    requires SaveTask(t, cand).Success?
    ensures Normalized(SaveTask(t, cand).value.1.tags)
    ensures multiset(SaveTask(t, cand).value.1.tags) == multiset(LowerAll(cand.tags))
    ensures AllLower(cand.tags) && Sorting.SortedBy(cand.tags, StrLe) ==>
              SaveTask(t, cand).value.1.tags == cand.tags
  {
    NormalizeFixesNormalized(cand.tags);
  }

  /** Saving keeps both halves of the table invariant. */
  lemma SaveTaskPreservesValid(t: TaskTable, cand: Task)
    requires Valid(t)
    requires SaveTask(t, cand).Success?
    ensures Valid(SaveTask(t, cand).value.0)
  {
    var (t', saved) := SaveTask(t, cand).value;
    var id := saved.id.value;
    var matches := IdentityMatches(t, cand.(tags := Normalize(cand.tags)));
    // No row other than the one written shares the saved task's identity key.
    assert forall j :: j in t && j != id ==> !SameIdentity(t[j], saved) by {
      if matches != {} {
        assert id in matches;
        forall j | j in t && j != id ensures !SameIdentity(t[j], saved) {
          assert !SameIdentity(t[j], t[id]);
        }
      } else {
        forall j | j in t && j != id ensures !SameIdentity(t[j], saved) {
          assert j !in matches;
        }
      }
    }
  }

  /** A candidate whose identity key matches a stored row, and which carries no id or that
      row's id, is merged into that row: it adopts the row's id, replaces its fields, and
      no other row changes. */
  lemma SaveTaskMergesIdentityMatch(t: TaskTable, cand: Task, k: int)
    requires Valid(t)
    requires k in t && SameIdentity(t[k], cand)
    requires cand.id == None || cand.id == Some(k)
    ensures SaveTask(t, cand).Success?
    ensures SaveTask(t, cand).value.1.id == Some(k)
    ensures SaveTask(t, cand).value.0.Keys == t.Keys
    ensures SaveTask(t, cand).value.0[k] == cand.(id := Some(k), tags := Normalize(cand.tags))
    ensures forall j :: j in t && j != k ==> SaveTask(t, cand).value.0[j] == t[j]
  {
    OnlyIdentityMatch(t, cand.(tags := Normalize(cand.tags)), k);
  }

  /** Under the table invariant, a save fails exactly when the candidate carries an
      explicit id and its identity key resolves to a row with a different id. */
  lemma SaveTaskFailsIffIdMismatch(t: TaskTable, cand: Task)
    requires Valid(t)
    ensures SaveTask(t, cand).Failure? <==>
      cand.id.Some? && exists k :: k in t && SameIdentity(t[k], cand) && k != cand.id.value
  {
    if cand.id.Some? && exists k :: k in t && SameIdentity(t[k], cand) && k != cand.id.value {
      var k :| k in t && SameIdentity(t[k], cand) && k != cand.id.value;
      OnlyIdentityMatch(t, cand.(tags := Normalize(cand.tags)), k);
    }
  }

  /** A candidate without an id whose identity key matches no row is inserted: exactly
      one row is added, under an id no row had, which is 1 in an empty table; the other
      rows are unchanged. */
  lemma SaveTaskInsertsNew(t: TaskTable, cand: Task)
    requires forall k :: k in t ==> !SameIdentity(t[k], cand)
    requires cand.id == None
    ensures SaveTask(t, cand).Success?
    ensures SaveTask(t, cand).value.1.id == Some(FreshId(t.Keys))
    ensures FreshId(t.Keys) !in t
    ensures |SaveTask(t, cand).value.0| == |t| + 1
    ensures forall k :: k in t ==> SaveTask(t, cand).value.0[k] == t[k]
    ensures t == map[] ==> SaveTask(t, cand).value.1.id == Some(1)
  {
    var matches := IdentityMatches(t, cand.(tags := Normalize(cand.tags)));
    assert forall j :: j !in matches;
  }

  /** Re-saving a stored task after editing it keeps its id and the number of rows, even
      when the edit changes its identity key, provided no other row has the new key. */
  lemma SaveTaskResaveKeepsId(t: TaskTable, cand: Task, k: int)
    requires Valid(t)
    requires k in t && cand.id == Some(k)
    requires forall j :: j in t && j != k ==> !SameIdentity(t[j], cand)
    ensures SaveTask(t, cand).Success?
    ensures SaveTask(t, cand).value.1.id == Some(k)
    ensures SaveTask(t, cand).value.0.Keys == t.Keys
    ensures |SaveTask(t, cand).value.0| == |t|
  {
    var normalized := cand.(tags := Normalize(cand.tags));
    var matches := IdentityMatches(t, normalized);
    forall j | j in matches ensures j == k {
      assert SameIdentity(t[j], normalized);
    }
    assert t.Keys + {k} == t.Keys;
  }

  /** Saving the task a save returned changes nothing: same table, same task. */
  lemma SaveTaskIdempotent(t: TaskTable, cand: Task)
    requires Valid(t)
    requires SaveTask(t, cand).Success?
    ensures SaveTask(SaveTask(t, cand).value.0, SaveTask(t, cand).value.1) == SaveTask(t, cand)
  {
    var (t1, saved) := SaveTask(t, cand).value;
    var k := saved.id.value;
    SaveTaskPreservesValid(t, cand);
    NormalizeIdempotent(cand.tags);
    assert saved.(tags := Normalize(saved.tags)) == saved;
    SaveTaskMergesIdentityMatch(t1, saved, k);
    assert t1[k := saved] == t1;
  }

  /** Two different candidates with the same identity key and no id end up in the same
      row: the second save adopts the first one's id and adds no row. */
  lemma SaveTaskResolvesIdentity(t: TaskTable, a: Task, b: Task)
    requires Valid(t)
    requires SaveTask(t, a).Success?
    requires SameIdentity(a, b) && b.id == None
    ensures SaveTask(SaveTask(t, a).value.0, b).Success?
    ensures SaveTask(SaveTask(t, a).value.0, b).value.1.id == SaveTask(t, a).value.1.id
    ensures SaveTask(SaveTask(t, a).value.0, b).value.0.Keys == SaveTask(t, a).value.0.Keys
  {
    var (t1, saved) := SaveTask(t, a).value;
    SaveTaskPreservesValid(t, a);
    SaveTaskMergesIdentityMatch(t1, b, saved.id.value);
  }

  /** `list_tasks(filter)`: the rows satisfying the filter, newest (largest id) first. */
  function ListTasks(t: TaskTable, f: Task -> bool): (r: seq<Task>)
    requires TasksKeyed(t)
    ensures forall i :: 0 <= i < |r| ==>
      r[i].id.Some? && r[i].id.value in t && t[r[i].id.value] == r[i] && f(r[i])
    ensures forall k :: k in t && f(t[k]) ==> t[k] in r
    ensures forall i, j :: 0 <= i < j < |r| ==> r[i].id.value > r[j].id.value
    ensures |r| == |Matching(t, f)|
  {
    var ids := FilterIds(Descending(t.Keys), t, f);
    FilteredDescending(t, f, ids);
    assert forall i :: 0 <= i < |ids| ==> ids[i] in ids;
    SelectedRowsComplete(t, f, ids);
    Rows(ids, t)
  }

  /** `clear_tasks(filter)`: delete the rows satisfying the filter and report how many
      were deleted; the remaining rows are exactly the others, unchanged. */
  function ClearTasks(t: TaskTable, f: Task -> bool): (r: (TaskTable, nat))
    ensures forall k :: k in r.0 <==> k in t && !f(t[k])
    ensures forall k :: k in r.0 ==> r.0[k] == t[k]
    ensures r.1 == |Matching(t, f)|
    ensures r.1 == |t| - |r.0|
    ensures Valid(t) ==> Valid(r.0)
  {
    var kept := map k | k in t && !f(t[k]) :: t[k];
    assert t.Keys == Matching(t, f) + kept.Keys;
    assert Matching(t, f) * kept.Keys == {};
    (kept, |Matching(t, f)|)
  }

  /** The count `clear_tasks` reports equals the number of rows `list_tasks` shows for
      the same filter, and afterwards the filter lists nothing. */
  lemma ClearCountMatchesList(t: TaskTable, f: Task -> bool)
    requires TasksKeyed(t)
    ensures ClearTasks(t, f).1 == |ListTasks(t, f)|
    ensures TasksKeyed(ClearTasks(t, f).0)
    ensures Valid(t) ==> Valid(ClearTasks(t, f).0)
    ensures ListTasks(ClearTasks(t, f).0, f) == []
  {
    var kept := ClearTasks(t, f).0;
    assert Matching(kept, f) == {};
  }
}
