/**
 * The page's state and the five operations that change it. The
 * module-level `tasks` array and `editingId` become the fields of one
 * store object, and local storage's "tasks" entry becomes a third field
 * written by `Save`. Everything the page takes from its environment (the
 * form inputs, today's date, `Date.now()`, the answer to `confirm`, the
 * locale collation) is a parameter.
 */
module Store {
  import opened JsStrings
  import opened Tasks
  import opened Validation
  import opened StableSorting
  import opened TaskOrders

  class TaskStore {
    var tasks: seq<Task>
    var editingId: Option<int>
    /** The "tasks" entry of local storage; `None` while it is absent. */
    var stored: Option<seq<Task>>

    /** `loadTasks`: the stored list if there is one, otherwise empty; no
        edit in progress. */
    constructor Load(entry: Option<seq<Task>>)
      ensures stored == entry
      ensures tasks == if entry.Some? then entry.value else []
      ensures editingId == None
    {
      stored := entry;
      tasks := if entry.Some? then entry.value else [];
      editingId := None;
    }

    /** `saveTasks`: overwrites the stored entry with the current list. */
    method Save()
      modifies this`stored
      ensures stored == Some(tasks)
    {
      stored := Some(tasks);
    }

    /** `addOrUpdateTask`, with the form's raw inputs, today's date and the
        value `Date.now()` would return. A failed validation changes
        nothing. Otherwise an edit in progress updates the task being
        edited (if it still exists) and ends the edit; with no edit in
        progress a new pending task is appended. Either way the list is
        saved. */
    method AddOrUpdate(nameInput: string, dateInput: string, today: string, newId: int)
      returns (outcome: Outcome)
      modifies this
      ensures outcome == Validate(Trim(nameInput), dateInput, today)
      ensures outcome.Fail? ==>
        tasks == old(tasks) && editingId == old(editingId) && stored == old(stored)
      ensures outcome == Pass && old(editingId).None? ==>
        tasks == old(tasks) + [Task(newId, Trim(nameInput), Some(dateInput), false)]
      ensures outcome == Pass && old(editingId).Some? ==>
        tasks == WithDetails(old(tasks), old(editingId).value, Trim(nameInput), dateInput)
      ensures outcome == Pass ==> editingId == None && stored == Some(tasks)
      ensures WellFormed(old(tasks)) && !HasId(old(tasks), newId) ==> WellFormed(tasks)
    {
      var name := Trim(nameInput);
      outcome := Validate(name, dateInput, today);
      if outcome.Fail? {
        return;
      }
      assert !Blank(name);
      if editingId.Some? {
        if WellFormed(tasks) {
          WellFormedWithDetails(tasks, editingId.value, name, dateInput);
        }
        tasks := WithDetails(tasks, editingId.value, name, dateInput);
        editingId := None;
      } else {
        var task := Task(newId, name, Some(dateInput), false);
        if WellFormed(tasks) && !HasId(tasks, newId) {
          WellFormedAppend(tasks, task);
        }
        tasks := tasks + [task];
      }
      Save();
    }

    /** `startEdit`: marks the task with that id as being edited, if there
        is one; the list is not touched. */
    method StartEdit(id: int)
      modifies this`editingId
      ensures editingId == if HasId(tasks, id) then Some(id) else old(editingId)
    {
      if Find(tasks, id).Some? {
        editingId := Some(id);
      }
    }

    /** `deleteTask`, with the user's answer to the confirmation prompt:
        when confirmed, every task with that id is removed and the list is
        saved; otherwise nothing changes. The edit cursor is left as is. */
    method Delete(id: int, confirmed: bool)
      modifies this`tasks, this`stored
      ensures tasks == if confirmed then Without(old(tasks), id) else old(tasks)
      ensures stored == if confirmed then Some(tasks) else old(stored)
      ensures confirmed ==> !HasId(tasks, id)
      ensures WellFormed(old(tasks)) ==> WellFormed(tasks)
    {
      if !confirmed {
        return;
      }
      if WellFormed(tasks) {
        WellFormedWithout(tasks, id);
      }
      tasks := Without(tasks, id);
      Save();
    }

    /** `toggleComplete`: flips the flag of the task with that id and saves;
        an unknown id changes nothing and saves nothing. */
    method ToggleComplete(id: int)
      modifies this`tasks, this`stored
      ensures tasks == Toggled(old(tasks), id)
      ensures stored == if HasId(old(tasks), id) then Some(tasks) else old(stored)
      ensures WellFormed(old(tasks)) ==> WellFormed(tasks)
    {
      if Find(tasks, id).Some? {
        tasks := Toggled(tasks, id);
        Save();
      }
    }

    /** `sortTasks`, with the selected option and the collation behind
        `localeCompare`: reorders the list and does not save. An option
        other than the three known ones leaves the list as it is. */
    method SortTasks(option: string, localeCompare: (string, string) -> int)
      modifies this`tasks
      ensures tasks ==
        if option == "name" then Sort(old(tasks), NameOrder(localeCompare))
        else if option == "date" then Sort(old(tasks), DateBefore)
        else if option == "status" then Sort(old(tasks), StatusBefore)
        else old(tasks)
      ensures multiset(tasks) == multiset(old(tasks))
      ensures WellFormed(old(tasks)) ==> WellFormed(tasks)
    {
      var le: (Task, Task) -> bool;
      if option == "name" {
        le := NameOrder(localeCompare);
      } else if option == "date" {
        le := DateBefore;
      } else if option == "status" {
        le := StatusBefore;
      } else {
        return;
      }
      if WellFormed(tasks) {
        WellFormedSort(tasks, le);
      }
      tasks := Sort(tasks, le);
    }
  }

  lemma WellFormedAppend(s: seq<Task>, t: Task)
    requires WellFormed(s) && !HasId(s, t.id) && !Blank(t.name)
    ensures WellFormed(s + [t])
  {
    var r := s + [t];
    forall i, j | 0 <= i < j < |r| ensures r[i].id != r[j].id {
      if j == |s| {
        assert r[i] == s[i];
      } else {
        assert r[i] == s[i] && r[j] == s[j];
      }
    }
    forall i | 0 <= i < |r| ensures !Blank(r[i].name) {
      if i < |s| {
        assert r[i] == s[i];
      }
    }
  }

  lemma WellFormedWithDetails(s: seq<Task>, id: int, name: string, date: string)
    requires WellFormed(s) && !Blank(name)
    ensures WellFormed(WithDetails(s, id, name, date))
  {
    var r := WithDetails(s, id, name, date);
    assert forall i, j :: 0 <= i < j < |r| ==> r[i].id == s[i].id && r[j].id == s[j].id;
  }

  lemma WellFormedWithout(s: seq<Task>, id: int)
    requires WellFormed(s)
    ensures WellFormed(Without(s, id))
  {
    WithoutDistinct(s, id);
    var r := Without(s, id);
    forall i | 0 <= i < |r| ensures !Blank(r[i].name) {
      assert r[i] in s;
    }
  }

  lemma WellFormedSort(s: seq<Task>, le: (Task, Task) -> bool)
    requires WellFormed(s)
    ensures WellFormed(Sort(s, le))
  {
    SortDistinct(s, le);
    var r := Sort(s, le);
    forall i | 0 <= i < |r| ensures !Blank(r[i].name) {
      assert r[i] in multiset(s);
    }
  }

  /** The inputs of the two scenarios below pass validation on 2026-10-15. */
  lemma ScenarioInputsValid()
    ensures Trim("Buy milk") == "Buy milk" && Trim("Buy bread") == "Buy bread"
    ensures Validate("Buy milk", "2099-01-01", "2026-10-15") == Pass
    ensures Validate("Buy bread", "2099-01-02", "2026-10-15") == Pass
  {
    var milk, bread := "Buy milk", "Buy bread";
    assert LeadingBlanks(milk) == 0 && TrailingBlanks(milk) == 0;
    assert LeadingBlanks(bread) == 0 && TrailingBlanks(bread) == 0;
    var today := "2026-10-15";
    var d1, d2 := "2099-01-01", "2099-01-02";
    assert d1[0] == today[0] && d2[0] == today[0];
    assert d1[1..][0] == today[1..][0] && d2[1..][0] == today[1..][0];
    assert d1[1..][1..][0] > today[1..][1..][0] && d2[1..][1..][0] > today[1..][1..][0];
  }

  /** Adding a task, completing it and deleting it. */
  method AddToggleDeleteScenario()
  {
    var milk := Task(1, "Buy milk", Some("2099-01-01"), false);
    var done := milk.(completed := true);
    ScenarioInputsValid();
    assert Toggled([milk], 1) == [done] by {
      assert Find([milk], 1) == Some(0);
    }
    assert Without([done], 1) == [];
    var store := new TaskStore.Load(None);
    var outcome := store.AddOrUpdate("Buy milk", "2099-01-01", "2026-10-15", 1);
    assert outcome == Pass && store.tasks == [milk];
    store.ToggleComplete(1);
    assert store.tasks == [done];
    store.Delete(1, true);
    assert store.tasks == [] && store.stored == Some([]);
  }

  /** Deleting the task being edited leaves the edit in progress, so the
      next valid submission updates nothing and adds nothing. */
  method DeleteDuringEditScenario()
  {
    var store := new TaskStore.Load(Some([Task(1, "Buy milk", Some("2099-01-01"), false)]));
    store.StartEdit(1);
    store.Delete(1, true);
    assert store.editingId == Some(1);
    ScenarioInputsValid();
    var outcome := store.AddOrUpdate("Buy bread", "2099-01-02", "2026-10-15", 2);
    assert outcome == Pass;
    assert store.tasks == [] && store.editingId == None;
  }
}
