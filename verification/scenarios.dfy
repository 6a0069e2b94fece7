/** The insert-and-retrieve session of the repository's database test, replayed on the
    model: the first task gets id 1, renaming it keeps id 1 and one row, a second task
    gets id 2 and is listed first. */
module Scenarios {
  import opened Wrappers
  import opened Models
  import opened Tags
  import opened Keys
  import opened TaskStore

  /** The empty filter: every row. */
  function Everything(task: Task): bool {
    true
  }

  function FirstTask(): Task {
    Task(None, "test task", ["asdf", "foo"], "this task is just a test task", None, None)
  }

  function RenamedTask(): Task {
    FirstTask().(id := Some(1), name := "changed name")
  }

  function SecondTask(): Task {
    Task(None, "second task", ["some tag"], "quite the desc", None, None)
  }

  /** A table holding one row lists exactly that row. */
  lemma ListSingle(t: TaskTable, k: int)
    requires TasksKeyed(t) && t.Keys == {k}
    ensures ListTasks(t, Everything) == [t[k]]
  {
    var l := ListTasks(t, Everything);
    assert Matching(t, Everything) == {k};
    assert t[k] in l;
  }

  /** The test's tag list is already in normal form. */
  lemma TagsAlreadyNormalized()
    ensures Normalize(["asdf", "foo"]) == ["asdf", "foo"]
  {
    assert Normalized(["asdf", "foo"]) by {
      assert IsLower("asdf") && IsLower("foo");
      assert StrLe("asdf", "foo");
    }
    NormalizeFixesNormalized(["asdf", "foo"]);
  }

  /** The test opens with `clear_tasks()`: whatever the table held, it is then empty. */
  lemma ClearEverythingEmpties(before: TaskTable)
    ensures ClearTasks(before, Everything) == (map[], |before|)
  {
    MatchingEverything(before);
  }

  /** After the opening clear, saving the first task stores it under id 1 with its tags
      as given (already lower case and sorted), and listing shows just that task. */
  lemma FirstSaveGetsIdOne(before: TaskTable)
    ensures SaveTask(ClearTasks(before, Everything).0, FirstTask()) == Success((map[1 := FirstTask().(id := Some(1))], FirstTask().(id := Some(1))))
    ensures ListTasks(map[1 := FirstTask().(id := Some(1))], Everything) == [FirstTask().(id := Some(1))]
  {
    ClearEverythingEmpties(before);
    TagsAlreadyNormalized();
    SaveTaskInsertsNew(map[], FirstTask());
    ListSingle(map[1 := FirstTask().(id := Some(1))], 1);
  }

  /** Renaming the saved task and saving it again keeps id 1 and a single row. */
  lemma RenameKeepsIdOne()
    ensures SaveTask(map[1 := FirstTask().(id := Some(1))], RenamedTask()) == Success((map[1 := RenamedTask()], RenamedTask()))
    ensures ListTasks(map[1 := RenamedTask()], Everything) == [RenamedTask()]
  {
    var t1 := map[1 := FirstTask().(id := Some(1))];
    var renamed := RenamedTask();
    TagsAlreadyNormalized();
    assert Valid(t1);
    SaveTaskResaveKeepsId(t1, renamed, 1);
    var r := SaveTask(t1, renamed);
    assert r.value.1 == renamed.(id := Some(1), tags := Normalize(renamed.tags));
    assert r.value.1 == renamed;
    assert r.value.0 == t1[1 := renamed];
    assert t1[1 := renamed] == map[1 := renamed];
    ListSingle(map[1 := renamed], 1);
  }

  /** Two ids drawn from `{newer, older}`, the first larger than the second, are `newer`
      and then `older`. */
  lemma PairIdsOrdered(first: int, second: int, newer: int, older: int)
    requires first in {newer, older} && second in {newer, older}
    requires first > second && newer > older
    ensures first == newer && second == older
  {
  }

  /** The empty filter matches every stored row. */
  lemma MatchingEverything(t: TaskTable)
    ensures Matching(t, Everything) == t.Keys
  {
    forall k | k in t
      ensures k in Matching(t, Everything)
    {
      assert Everything(t[k]);
    }
  }

  /** A table holding two rows lists the one with the larger id first. */
  lemma ListPair(t: TaskTable, newer: int, older: int)
    requires TasksKeyed(t) && t.Keys == {newer, older} && newer > older
    ensures ListTasks(t, Everything) == [t[newer], t[older]]
  {
    var l := ListTasks(t, Everything);
    MatchingEverything(t);
    assert |{newer, older}| == 2;
    assert |l| == 2;
    var a, b := l[0].id.value, l[1].id.value;
    assert a in t && t[a] == l[0];
    assert b in t && t[b] == l[1];
    PairIdsOrdered(a, b, newer, older);
  }

  /** A second, different task gets id 2 and is listed before the first one. */
  lemma SecondSaveGetsIdTwo()
    ensures SaveTask(map[1 := RenamedTask()], SecondTask()).Success?
    ensures SaveTask(map[1 := RenamedTask()], SecondTask()).value.1.id == Some(2)
    ensures ListTasks(SaveTask(map[1 := RenamedTask()], SecondTask()).value.0, Everything) ==
              [SaveTask(map[1 := RenamedTask()], SecondTask()).value.1, RenamedTask()]
  {
    var t2 := map[1 := RenamedTask()];
    var second := SecondTask();
    assert RenamedTask().name != second.name by {
      assert RenamedTask().name[0] == 'c' && second.name[0] == 's';
    }
    assert !SameIdentity(t2[1], second);
    SaveTaskInsertsNew(t2, second);
    assert FreshId(t2.Keys) == 2 by {
      assert t2.Keys == {1};
      assert Max({1}) == 1;
    }
    var (t3, saved) := SaveTask(t2, second).value;
    assert saved.id == Some(2);
    assert t3 == t2[2 := saved];
    assert t3.Keys == {2, 1};
    ListPair(t3, 2, 1);
  }
}
