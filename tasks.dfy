/**
 * Task records and the list operations the store performs on them:
 * `tasks.find` by id, the in-place edits of the found task, and the
 * `tasks.filter` that deletes.
 */
module Tasks {
  import opened JsStrings

  datatype Option<T> = None | Some(value: T)

  /** A task. `date` is absent for records stored without one; every task
      the application itself creates has a date. */
  datatype Task = Task(id: int, name: string, date: Option<string>, completed: bool)

  predicate HasId(s: seq<Task>, id: int) {
    exists i :: 0 <= i < |s| && s[i].id == id
  }

  /** No two tasks share an id. */
  predicate IdsDistinct(s: seq<Task>) {
    forall i, j :: 0 <= i < j < |s| ==> s[i].id != s[j].id
  }

  /** What validation guarantees of every task the application creates
      or edits: a name that is not all whitespace. Ids distinct is what a
      fresh id for every new task guarantees. */
  predicate WellFormed(s: seq<Task>) {
    && IdsDistinct(s)
    && forall i :: 0 <= i < |s| ==> !Blank(s[i].name)
  }

  lemma DistinctCons(t: Task, s: seq<Task>)
    ensures IdsDistinct([t] + s) <==> (forall u :: u in s ==> u.id != t.id) && IdsDistinct(s)
  {
    if IdsDistinct([t] + s) {
      forall i, j | 0 <= i < j < |s| ensures s[i].id != s[j].id {
        assert ([t] + s)[i + 1] == s[i] && ([t] + s)[j + 1] == s[j];
      }
      forall u | u in s ensures u.id != t.id {
        var j :| 0 <= j < |s| && s[j] == u;
        assert ([t] + s)[0] == t && ([t] + s)[j + 1] == u;
        assert 0 < j + 1 < |[t] + s|;
      }
    }
    if (forall u :: u in s ==> u.id != t.id) && IdsDistinct(s) {
      forall i, j | 0 <= i < j < |[t] + s| ensures ([t] + s)[i].id != ([t] + s)[j].id {
        assert ([t] + s)[j] == s[j - 1];
        if i > 0 {
          assert ([t] + s)[i] == s[i - 1];
        }
      }
    }
  }

  /** The position of `tasks.find(t => t.id === id)`: the first task with
      that id, if any. */
  function Find(s: seq<Task>, id: int): (r: Option<nat>)
    ensures r.None? <==> !HasId(s, id)
    ensures r.Some? ==> r.value < |s| && s[r.value].id == id
    ensures r.Some? ==> forall j :: 0 <= j < r.value ==> s[j].id != id
  {
    if s == [] then None
    else if s[0].id == id then Some(0)
    else
      match Find(s[1..], id)
      case None =>
        assert forall j :: 1 <= j < |s| ==> s[j] == s[1..][j - 1];
        None
      case Some(i) => Some(i + 1)
  }

  /** `find` looks only at ids, so lists with the same ids in the same
      places find the same position. */
  lemma {:induction false} FindSameIds(s: seq<Task>, s': seq<Task>, id: int)
    requires |s| == |s'| && forall i :: 0 <= i < |s| ==> s[i].id == s'[i].id
    ensures Find(s, id) == Find(s', id)
  {
    if s != [] && s[0].id != id {
      FindSameIds(s[1..], s'[1..], id);
    }
  }

  /** The list after the update branch of add-or-update: the first task
      with id `id` gets the new name and date; if there is none, nothing
      changes. Ids, completion flags and every other task are untouched. */
  function WithDetails(s: seq<Task>, id: int, name: string, date: string): (r: seq<Task>)
    ensures |r| == |s|
    ensures forall i :: 0 <= i < |s| ==> r[i].id == s[i].id && r[i].completed == s[i].completed
    ensures !HasId(s, id) ==> r == s
    ensures HasId(s, id) ==>
      var k := Find(s, id).value;
      && r[k].name == name && r[k].date == Some(date)
      && forall i :: 0 <= i < |s| && i != k ==> r[i] == s[i]
  {
    match Find(s, id)
    case None => s
    case Some(k) => s[k := s[k].(name := name, date := Some(date))]
  }

  /** The list after `toggleComplete(id)` finds a task: the first task with
      that id has its flag flipped and nothing else changes. */
  function Toggled(s: seq<Task>, id: int): (r: seq<Task>)
    ensures |r| == |s|
    ensures forall i :: 0 <= i < |s| ==> r[i].id == s[i].id
    ensures !HasId(s, id) ==> r == s
    ensures HasId(s, id) ==>
      var k := Find(s, id).value;
      && r[k] == s[k].(completed := !s[k].completed)
      && forall i :: 0 <= i < |s| && i != k ==> r[i] == s[i]
  {
    match Find(s, id)
    case None => s
    case Some(k) => s[k := s[k].(completed := !s[k].completed)]
  }

  /** Toggling the same id twice gives back the original list. */
  lemma ToggleTwice(s: seq<Task>, id: int)
    ensures Toggled(Toggled(s, id), id) == s
  {
    FindSameIds(s, Toggled(s, id), id);
  }

  /** `tasks.filter(t => t.id !== id)`. */
  function Without(s: seq<Task>, id: int): (r: seq<Task>)
    ensures forall t :: t in r <==> t in s && t.id != id
    ensures |r| <= |s|
  {
    if s == [] then []
    else (if s[0].id == id then [] else [s[0]]) + Without(s[1..], id)
  }

  /** Deleting keeps the order of what remains: it acts on each part of a
      list separately. */
  lemma {:induction false} WithoutConcat(a: seq<Task>, b: seq<Task>, id: int)
    ensures Without(a + b, id) == Without(a, id) + Without(b, id)
  {
    if a == [] {
      assert a + b == b;
    } else {
      assert (a + b)[0] == a[0] && (a + b)[1..] == a[1..] + b;
      WithoutConcat(a[1..], b, id);
    }
  }

  /** Deleting an id that is not there changes nothing. */
  lemma {:induction false} WithoutAbsent(s: seq<Task>, id: int)
    requires !HasId(s, id)
    ensures Without(s, id) == s
  {
    if s != [] {
      assert !HasId(s[1..], id) by {
        assert forall j :: 0 <= j < |s[1..]| ==> s[1..][j] == s[j + 1];
      }
      WithoutAbsent(s[1..], id);
      assert s == [s[0]] + s[1..];
    }
  }

  /** With distinct ids, deleting removes exactly one task when the id is
      present and none otherwise. */
  lemma {:induction false} WithoutCount(s: seq<Task>, id: int)
    requires IdsDistinct(s)
    ensures |Without(s, id)| == if HasId(s, id) then |s| - 1 else |s|
  {
    if s != [] {
      DistinctCons(s[0], s[1..]);
      assert s == [s[0]] + s[1..];
      assert HasId(s, id) <==> s[0].id == id || HasId(s[1..], id) by {
        assert forall j :: 1 <= j < |s| ==> s[j] == s[1..][j - 1];
      }
      if s[0].id == id {
        assert !HasId(s[1..], id) by {
          forall j | 0 <= j < |s[1..]| ensures s[1..][j].id != id {
            assert s[1..][j] in s[1..];
          }
        }
        WithoutAbsent(s[1..], id);
      } else {
        WithoutCount(s[1..], id);
      }
    }
  }

  /** Deleting keeps ids distinct. */
  lemma {:induction false} WithoutDistinct(s: seq<Task>, id: int)
    requires IdsDistinct(s)
    ensures IdsDistinct(Without(s, id))
  {
    if s != [] {
      DistinctCons(s[0], s[1..]);
      assert s == [s[0]] + s[1..];
      WithoutDistinct(s[1..], id);
      if s[0].id != id {
        DistinctCons(s[0], Without(s[1..], id));
      }
    }
  }
}
