/**
 * The three comparators of the sort selector and what sorting the task
 * list with each of them yields.
 */
module TaskOrders {
  import opened JsStrings
  import opened Tasks
  import opened StableSorting
  import IsoDates

  /** `Number(b)`: 1 for true, 0 for false. */
  function BoolNumber(b: bool): (n: int)
    ensures 0 <= n <= 1 && (n == 1 <==> b)
  {
    if b then 1 else 0
  }

  /** The status comparator, `Number(b.completed) - Number(a.completed)`. */
  function StatusCompare(a: Task, b: Task): (r: int)
    ensures r < 0 <==> a.completed && !b.completed
    ensures r == 0 <==> a.completed == b.completed
    ensures r > 0 <==> !a.completed && b.completed
  {
    BoolNumber(b.completed) - BoolNumber(a.completed)
  }

  predicate StatusBefore(a: Task, b: Task) {
    StatusCompare(a, b) <= 0
  }

  /** `t.date || "0000-00-00"`: an absent or empty date counts as the
      lowest date. */
  function DateKey(t: Task): (k: string)
    ensures k != ""
    ensures t.date.Some? && t.date.value != "" ==> k == t.date.value
    ensures t.date.None? || t.date.value == "" ==> k == "0000-00-00"
    ensures t.date.Some? && IsoDates.IsIsoDate(t.date.value) && t.date.value != "0000-00-00" ==>
      Less("0000-00-00", k)
  {
    assert t.date.Some? && IsoDates.IsIsoDate(t.date.value) && t.date.value != "0000-00-00" ==>
      Less("0000-00-00", t.date.value) by {
      if t.date.Some? && IsoDates.IsIsoDate(t.date.value) && t.date.value != "0000-00-00" {
        IsoDates.ZeroDateFirst(t.date.value);
      }
    }
    if t.date.Some? && t.date.value != "" then t.date.value else "0000-00-00"
  }

  /** `x.localeCompare(y)` on date strings, taken as ordinal comparison. */
  function OrdinalCompare(x: string, y: string): (r: int)
    ensures r < 0 <==> Less(x, y)
    ensures r == 0 <==> x == y
    ensures r > 0 <==> Less(y, x)
  {
    if Less(x, y) then
      LessAsymmetric(x, y);
      -1
    else if x == y then
      LessIrreflexive(x);
      0
    else
      LessTotal(x, y);
      1
  }

  /** The date comparator, `dateB.localeCompare(dateA)`: newest first. */
  function DateCompare(a: Task, b: Task): (r: int)
    ensures r < 0 <==> Less(DateKey(b), DateKey(a))
    ensures r == 0 <==> DateKey(a) == DateKey(b)
    ensures r > 0 <==> Less(DateKey(a), DateKey(b))
  {
    OrdinalCompare(DateKey(b), DateKey(a))
  }

  predicate DateBefore(a: Task, b: Task) {
    DateCompare(a, b) <= 0
  }

  /** The name comparator, `a.name.localeCompare(b.name)`, for a given
      locale collation `collate`. */
  function NameOrder(collate: (string, string) -> int): (le: (Task, Task) -> bool)
    ensures forall a: Task, b: Task :: le(a, b) <==> collate(a.name, b.name) <= 0
    ensures ConsistentCollation(collate) ==> TotalPreorder(le)
  {
    var le := (a: Task, b: Task) => collate(a.name, b.name) <= 0;
    CollationOrder(collate, le);
    le
  }

  /** A comparator that compares names by a consistent collation is
      consistent. */
  lemma CollationOrder(collate: (string, string) -> int, le: (Task, Task) -> bool)
    requires forall a: Task, b: Task :: le(a, b) <==> collate(a.name, b.name) <= 0
    ensures ConsistentCollation(collate) ==> TotalPreorder(le)
  {
    if ConsistentCollation(collate) {
      forall a, b ensures le(a, b) || le(b, a) {
        assert collate(a.name, b.name) <= 0 || collate(b.name, a.name) <= 0;
      }
      forall a, b, c | le(a, b) && le(b, c) ensures le(a, c) {
        assert collate(a.name, b.name) <= 0 && collate(b.name, c.name) <= 0;
      }
    }
  }

  /** A collation that is a consistent comparator on names. */
  ghost predicate ConsistentCollation(collate: (string, string) -> int) {
    && (forall x, y :: collate(x, y) <= 0 || collate(y, x) <= 0)
    && (forall x, y, z :: collate(x, y) <= 0 && collate(y, z) <= 0 ==> collate(x, z) <= 0)
  }

  function Completed(s: seq<Task>): (r: seq<Task>)
    ensures forall t :: t in r <==> t in s && t.completed
  {
    if s == [] then [] else (if s[0].completed then [s[0]] else []) + Completed(s[1..])
  }

  function Pending(s: seq<Task>): (r: seq<Task>)
    ensures forall t :: t in r <==> t in s && !t.completed
  {
    if s == [] then [] else (if s[0].completed then [] else [s[0]]) + Pending(s[1..])
  }

  lemma {:induction false} InsertAfterCompleted(x: Task, c: seq<Task>, p: seq<Task>)
    requires !x.completed && forall t :: t in c ==> t.completed
    ensures Insert(x, c + p, StatusBefore) == c + Insert(x, p, StatusBefore)
  {
    if c == [] {
      assert c + p == p;
    } else {
      var y, c' := c[0], c[1..];
      assert y in c && y.completed;
      assert !StatusBefore(x, y);
      assert c + p == [y] + (c' + p);
      assert Insert(x, c + p, StatusBefore) == [y] + Insert(x, c' + p, StatusBefore);
      assert forall t :: t in c' ==> t in c;
      InsertAfterCompleted(x, c', p);
      calc {
        Insert(x, c + p, StatusBefore);
        [y] + Insert(x, c' + p, StatusBefore);
        [y] + (c' + Insert(x, p, StatusBefore));
        ([y] + c') + Insert(x, p, StatusBefore);
        { assert c == [y] + c'; }
        c + Insert(x, p, StatusBefore);
      }
    }
  }

  /** Sorting by status yields the completed tasks, in their original
      order, followed by the pending ones, in their original order. */
  lemma {:induction false} SortByStatus(s: seq<Task>)
    ensures Sort(s, StatusBefore) == Completed(s) + Pending(s)
  {
    if s != [] {
      var x, s' := s[0], s[1..];
      SortByStatus(s');
      var c, p := Completed(s'), Pending(s');
      StatusInsert(x, c, p);
      assert Sort(s, StatusBefore) == Insert(x, c + p, StatusBefore);
      if x.completed {
        assert Completed(s) == [x] + c && Pending(s) == p;
      } else {
        assert Completed(s) == c && Pending(s) == [x] + p;
      }
    }
  }

  /** One step of the insertion sort by status. */
  lemma StatusInsert(x: Task, c: seq<Task>, p: seq<Task>)
    requires forall t :: t in c ==> t.completed
    requires forall t :: t in p ==> !t.completed
    ensures Insert(x, c + p, StatusBefore) ==
      (if x.completed then [x] + c else c) + (if x.completed then p else [x] + p)
  {
    if x.completed {
      assert c + p != [] ==> StatusBefore(x, (c + p)[0]);
    } else {
      InsertAfterCompleted(x, c, p);
      if p != [] {
        assert p[0] in p;
        assert StatusBefore(x, p[0]);
      }
    }
  }

  /** So every completed task comes before every pending one. */
  lemma CompletedFirst(s: seq<Task>, i: nat, j: nat)
    requires i < |s| && j < |s|
    requires Sort(s, StatusBefore)[i].completed && !Sort(s, StatusBefore)[j].completed
    ensures i < j
  {
    SortByStatus(s);
    var r, c, p := Sort(s, StatusBefore), Completed(s), Pending(s);
    forall k | 0 <= k < |r| ensures r[k].completed <==> k < |c| {
      if k < |c| {
        assert r[k] == c[k] && c[k] in c;
      } else {
        assert r[k] == p[k - |c|] && p[k - |c|] in p;
      }
    }
  }

  lemma StatusIsPreorder()
    ensures TotalPreorder(StatusBefore)
  {
  }

  /** The date comparator says `a` may precede `b` when `a`'s date key is
      not smaller. */
  lemma DateBeforeIff(a: Task, b: Task)
    ensures DateBefore(a, b) <==> !Less(DateKey(a), DateKey(b))
  {
    var ka, kb := DateKey(a), DateKey(b);
    LessIrreflexive(ka);
    if ka != kb {
      LessTotal(ka, kb);
      if Less(ka, kb) {
        LessAsymmetric(ka, kb);
      }
    }
  }

  lemma DateIsPreorder()
    ensures TotalPreorder(DateBefore)
  {
    forall a, b ensures DateBefore(a, b) || DateBefore(b, a) {
      DateBeforeIff(a, b);
      DateBeforeIff(b, a);
      if Less(DateKey(a), DateKey(b)) {
        LessAsymmetric(DateKey(a), DateKey(b));
      }
    }
    forall a, b, c | DateBefore(a, b) && DateBefore(b, c) ensures DateBefore(a, c) {
      DateBeforeIff(a, b);
      DateBeforeIff(b, c);
      DateBeforeIff(a, c);
      if Less(DateKey(a), DateKey(c)) {
        if DateKey(b) != DateKey(c) {
          LessTotal(DateKey(b), DateKey(c));
          LessTransitive(DateKey(a), DateKey(c), DateKey(b));
        }
      }
    }
  }

  /** Two tasks tie under the date comparator exactly when their date keys
      are equal, so the buckets of a date sort are the tasks sharing a
      date key. */
  lemma DateTies(a: Task, b: Task)
    ensures Tied(DateBefore, a, b) <==> DateKey(a) == DateKey(b)
  {
    DateBeforeIff(a, b);
    DateBeforeIff(b, a);
    if DateKey(a) != DateKey(b) {
      LessTotal(DateKey(a), DateKey(b));
    }
  }

  /** Sorting by date: a permutation, newest date key first, and tasks with
      the same date key in their original order. */
  lemma SortByDate(s: seq<Task>)
    ensures multiset(Sort(s, DateBefore)) == multiset(s)
    ensures forall i, j :: 0 <= i < j < |s| ==>
      !Less(DateKey(Sort(s, DateBefore)[i]), DateKey(Sort(s, DateBefore)[j]))
    ensures forall k :: Bucket(Sort(s, DateBefore), DateBefore, k) == Bucket(s, DateBefore, k)
  {
    DateIsPreorder();
    SortCorrect(s, DateBefore);
    var r := Sort(s, DateBefore);
    forall i, j | 0 <= i < j < |s| ensures !Less(DateKey(r[i]), DateKey(r[j])) {
      assert DateBefore(r[i], r[j]);
      DateBeforeIff(r[i], r[j]);
    }
  }

  /** After a date sort an undated task comes after every task dated later
      than "0000-00-00". */
  lemma UndatedLast(s: seq<Task>, i: nat, j: nat)
    requires i < |s| && j < |s|
    requires DateKey(Sort(s, DateBefore)[j]) == "0000-00-00"
    requires Less("0000-00-00", DateKey(Sort(s, DateBefore)[i]))
    ensures i < j
  {
    var r := Sort(s, DateBefore);
    SortByDate(s);
    LessIrreflexive(DateKey(r[j]));
  }
  /** So an undated task comes after every task with a `YYYY-MM-DD` date
      other than "0000-00-00": missing dates go to the bottom. */
  lemma UndatedAfterDated(s: seq<Task>, i: nat, j: nat)
    requires i < |s| && j < |s|
    requires Sort(s, DateBefore)[j].date.None?
    requires Sort(s, DateBefore)[i].date.Some?
    requires IsoDates.IsIsoDate(Sort(s, DateBefore)[i].date.value)
    requires Sort(s, DateBefore)[i].date.value != "0000-00-00"
    ensures i < j
  {
    var r := Sort(s, DateBefore);
    assert Less("0000-00-00", DateKey(r[i]));
    UndatedLast(s, i, j);
  }


  /** Sorting by name under a consistent collation: a permutation, ordered
      by the collation, names the collation ties kept in original order. */
  lemma SortByName(s: seq<Task>, collate: (string, string) -> int)
    requires ConsistentCollation(collate)
    ensures multiset(Sort(s, NameOrder(collate))) == multiset(s)
    ensures forall i, j :: 0 <= i < j < |s| ==>
      collate(Sort(s, NameOrder(collate))[i].name, Sort(s, NameOrder(collate))[j].name) <= 0
    ensures forall k :: Bucket(Sort(s, NameOrder(collate)), NameOrder(collate), k) == Bucket(s, NameOrder(collate), k)
  {
    SortCorrect(s, NameOrder(collate));
    var r := Sort(s, NameOrder(collate));
    forall i, j | 0 <= i < j < |s| ensures collate(r[i].name, r[j].name) <= 0 {
      assert NameOrder(collate)(r[i], r[j]);
    }
  }

  /** Sorting keeps ids distinct. */
  lemma {:induction false} SortDistinct(s: seq<Task>, le: (Task, Task) -> bool)
    requires IdsDistinct(s)
    ensures IdsDistinct(Sort(s, le))
  {
    if s != [] {
      DistinctCons(s[0], s[1..]);
      assert s == [s[0]] + s[1..];
      SortDistinct(s[1..], le);
      forall u | u in Sort(s[1..], le) ensures u.id != s[0].id {
        assert u in multiset(Sort(s[1..], le));
      }
      InsertDistinct(s[0], Sort(s[1..], le), le);
    }
  }

  lemma {:induction false} InsertDistinct(x: Task, r: seq<Task>, le: (Task, Task) -> bool)
    requires IdsDistinct(r) && forall u :: u in r ==> u.id != x.id
    ensures IdsDistinct(Insert(x, r, le))
  {
    DistinctCons(x, r);
    if r != [] && !le(x, r[0]) {
      DistinctCons(r[0], r[1..]);
      assert r == [r[0]] + r[1..];
      InsertDistinct(x, r[1..], le);
      var t := Insert(x, r[1..], le);
      forall u | u in t ensures u.id != r[0].id {
        assert u in multiset(t);
      }
      DistinctCons(r[0], t);
    }
  }
}
