# Task list store — a Dafny model

This models the task list page of `script.js`. The page's state is a list of
tasks and the id of the task being edited, if any. The list is mirrored into
local storage under the key "tasks". Five operations change that state:

- add or update a task from the form, after validation;
- start editing a task;
- delete a task, after confirmation;
- toggle a task's completion;
- sort the list by name, by date (newest first) or by status (completed first).

The model is organised by concern:

| file | module | what it holds |
|---|---|---|
| `strings.dfy` | `JsStrings` | `String.prototype.trim` and the string `<` operator, with the order laws of `<` |
| `dates.dfy` | `IsoDates` | `YYYY-MM-DD` strings; `<` on them is calendar order |
| `validation.dfy` | `Validation` | the three checks of the validator, their order and their messages |
| `sorting.dfy` | `StableSorting` | what a stable `Array.prototype.sort` must return: a reference sort, its correctness, and the proof that stability and order determine the result |
| `tasks.dfy` | `Tasks` | task records, `find` by id, the in-place edits of the found task, and the filter that deletes |
| `orders.dfy` | `TaskOrders` | the three comparators of the sort selector and what each sort yields |
| `store.dfy` | `Store` | class `TaskStore`, whose fields `tasks`, `editingId` and `stored` the five operations update |

The page itself changes state step by step, so `TaskStore` is a class. Its
methods declare what they modify and state the whole new state in terms of
the pure functions of `Tasks`, `Validation` and `StableSorting`. The lemmas
about those functions carry the properties.

Every method also preserves one invariant, `Tasks.WellFormed`. It holds when
ids are distinct and no name is blank, provided each new task gets an unused
id (the value `Date.now()` gives).

In two places the code does something other than what a user would expect,
and the model follows the code:

- **Submitting while editing a deleted task.** Deleting the task that is being
  edited leaves the edit cursor set. The next valid submission then updates
  nothing and adds nothing. It still ends the edit and saves the list.
  `Store.DeleteDuringEditScenario` shows this sequence. A user would expect
  the submission to be added as a new task.
- **Unparsable stored list.** When the stored entry is not valid JSON, the
  code throws instead of starting with an empty list. See "Left out".

## Model

| member | source | states |
|---|---|---|
| JsStrings.Trim | script.js:51 | `trim` cuts an all-whitespace prefix and an all-whitespace suffix off its input. What remains neither starts nor ends with whitespace, and it is empty exactly when the input is all whitespace |
| JsStrings.TrimIdempotent | script.js:91 | trimming a name that was already trimmed (once in the handler, again in the validator) changes nothing |
| JsStrings.Less | script.js:64 | string `<`: the first differing character decides. Its contract covers prefixes: a prefix of `b` is `<` `b` exactly when it is shorter. Its order laws are the five lemmas below |
| JsStrings.LessIrreflexive | script.js:64 | no string is `<` itself |
| JsStrings.LessTransitive | script.js:64 | string `<` is transitive |
| JsStrings.LessTotal | script.js:64 | of two different strings, one is `<` the other |
| JsStrings.LessAsymmetric | script.js:64 | `a < b` excludes `b < a` |
| JsStrings.LessConcat | script.js:64 | when two strings are split at the same length, the first parts decide `<` unless they are equal, in which case the rest decides |
| IsoDates.DigitsCompare | script.js:64 | for digit strings of equal length, `<` is numeric order, and equal numbers mean equal strings |
| IsoDates.IsoLessIsChronological | script.js:63-64 | for two `YYYY-MM-DD` strings, `<` is (year, month, day) order, and equality is equality of all three fields |
| IsoDates.ZeroDateFirst | script.js:167-168 | "0000-00-00", the fallback key of an undated task, is `<` every other `YYYY-MM-DD` date |
| Validation.Validate | script.js:47-70 | the validator passes exactly when the name is not blank, the date is not empty and it is not `<` today. Each of the three failures occurs exactly when its check is the first one violated |
| Validation.Message | script.js:52-65 | the three error texts, "Task name is required", "Date is required" and "Date must be today or in the future". None is empty |
| Validation.MessagesDistinct | script.js:52-65 | two failures show the same text exactly when they are the same failure |
| Validation.ValidateIsChronological | script.js:62-67 | for ISO dates, a non-blank name passes exactly when the date is on or after today on the calendar, and is refused as in the past exactly when it is before |
| Validation.TodayIsAccepted | script.js:62-67 | today's own date passes |
| StableSorting.Insert | script.js:162-174 | inserting adds exactly one occurrence of the element |
| StableSorting.Sort | script.js:162-174 | the reference sort returns a permutation of its input |
| StableSorting.InsertSorted | script.js:162-174 | inserting into an ordered list keeps it ordered |
| StableSorting.InsertBucket | script.js:162-174 | insertion puts the element ahead of everything it ties with |
| StableSorting.SortCorrect | script.js:157-177 | for a consistent comparator, the sort is a permutation, ordered, and stable: the elements of each tie class keep their relative order |
| StableSorting.SameBucketsSame | script.js:157-177 | two ordered lists with the same tie classes, in the same orders, are equal |
| StableSorting.SortUnique | script.js:157-177 | any ordered, stable rearrangement equals `Sort`, so every conforming engine sorts the list the same way |
| Tasks.Find | script.js:101 | `find` by id returns the first position holding that id, or nothing exactly when no task has it |
| Tasks.FindSameIds | script.js:146 | lists with the same ids in the same places give the same `find` result |
| Tasks.WithDetails | script.js:99-105 | the update branch sets the found task's name and date. It keeps every id, every completion flag and every other task. When no task has the id, nothing changes |
| Tasks.Toggled | script.js:145-148 | toggling flips the found task's flag and changes nothing else. An unknown id changes nothing |
| Tasks.ToggleTwice | script.js:145-152 | toggling the same id twice gives back the original list |
| Tasks.Without | script.js:140 | the filter keeps exactly the tasks with another id |
| Tasks.WithoutConcat | script.js:140 | the filter keeps the remaining tasks in their order |
| Tasks.WithoutAbsent | script.js:140 | deleting an id that is not there changes nothing |
| Tasks.WithoutCount | script.js:140 | with distinct ids, deleting removes one task when the id is present and none otherwise |
| Tasks.WithoutDistinct | script.js:140 | deleting keeps ids distinct |
| TaskOrders.BoolNumber | script.js:174 | `Number` of a flag is 1 for true and 0 for false |
| TaskOrders.StatusCompare | script.js:174 | the status comparator is negative exactly when only `a` is completed, zero exactly when both flags agree, and positive exactly when only `b` is completed |
| TaskOrders.DateKey | script.js:167-168 | a task's sort key is its date when that is present and not empty, and "0000-00-00" otherwise. It is never empty. For a task with a `YYYY-MM-DD` date other than "0000-00-00", the key is above the undated key, which is what sends missing dates to the bottom |
| TaskOrders.OrdinalCompare | script.js:169 | `localeCompare` taken as ordinal comparison: negative, zero or positive exactly when the first string is `<`, equal to or `>` the second |
| TaskOrders.DateCompare | script.js:166-170 | `dateB.localeCompare(dateA)` is negative exactly when `b`'s key is `<` `a`'s, zero exactly when the keys are equal, and positive exactly when `a`'s key is `<` `b`'s |
| TaskOrders.NameOrder | script.js:162 | `a` may precede `b` in a name sort exactly when the collation of their names is not positive. When the collation is consistent, so is the comparator: any two tasks are comparable and the order is transitive |
| TaskOrders.StatusIsPreorder | script.js:174 | the status comparator is consistent |
| TaskOrders.SortByStatus | script.js:172-174 | sorting by status yields the completed tasks in their original order, then the pending ones in their original order |
| TaskOrders.CompletedFirst | script.js:172-174 | after a status sort, every completed task is ahead of every pending one |
| TaskOrders.DateBeforeIff | script.js:166-170 | the date comparator lets `a` precede `b` exactly when `a`'s date key is not `<` `b`'s |
| TaskOrders.DateIsPreorder | script.js:166-170 | the date comparator is consistent |
| TaskOrders.DateTies | script.js:166-170 | two tasks tie under the date comparator exactly when their date keys are equal |
| TaskOrders.SortByDate | script.js:164-170 | sorting by date is a permutation with the newest date key first, and tasks sharing a date key keep their order |
| TaskOrders.UndatedLast | script.js:167-168 | after a date sort, a task keyed "0000-00-00" comes after every task whose key is `<`-above "0000-00-00" |
| TaskOrders.UndatedAfterDated | script.js:164-170 | after a date sort, a task with no date comes after every task with a `YYYY-MM-DD` date other than "0000-00-00": missing dates go to the bottom |
| TaskOrders.CollationOrder | script.js:162 | any comparator that orders tasks by a consistent collation of their names is consistent |
| TaskOrders.SortByName | script.js:160-162 | sorting by name under a consistent collation is a permutation, ordered by the collation, and names the collation ties keep their order |
| TaskOrders.SortDistinct | script.js:157-177 | sorting keeps ids distinct |
| TaskOrders.InsertDistinct | script.js:162 | inserting a task with a new id keeps ids distinct |
| TaskOrders.StatusInsert | script.js:174 | inserting a task into completed-then-pending tasks puts it at the head of its own group |
| TaskOrders.InsertAfterCompleted | script.js:174 | a pending task is inserted after every completed task |
| Tasks.DistinctCons | script.js:138-177 | a list with a task in front has distinct ids exactly when the rest does and none of it has that task's id |
| Store.TaskStore.Load | script.js:7-11 | loading takes the stored list if there is one and an empty list otherwise, with no edit in progress |
| Store.TaskStore.Save | script.js:13-15 | saving makes the stored entry the current list |
| Store.TaskStore.AddOrUpdate | script.js:87-125 | the outcome is the validation of the trimmed name. A failure changes nothing. With no edit in progress, a new pending task with the trimmed name is appended. During an edit, the edited task's details are updated. On success the edit ends and the list is saved. Well-formedness is kept when the new id is unused |
| Store.TaskStore.StartEdit | script.js:127-136 | the task being edited becomes `id` when a task has that id. Otherwise nothing changes |
| Store.TaskStore.Delete | script.js:138-143 | once confirmed, every task with the id is gone and the list is saved. Unconfirmed, nothing changes. The edit cursor is untouched |
| Store.TaskStore.ToggleComplete | script.js:145-152 | the found task's flag is flipped and the list saved. An unknown id changes and saves nothing |
| Store.TaskStore.SortTasks | script.js:157-180 | the list becomes the stable sort under the selected comparator, and is unchanged for any other option. The multiset of tasks and well-formedness are kept, and nothing is saved |
| Store.WellFormedAppend | script.js:109-115 | appending a task with an unused id and a non-blank name keeps the list well formed |
| Store.WellFormedWithDetails | script.js:99-105 | updating a task's details with a non-blank name keeps the list well formed |
| Store.WellFormedWithout | script.js:140 | deleting keeps the list well formed |
| Store.WellFormedSort | script.js:157-177 | sorting keeps the list well formed |
| Store.ScenarioInputsValid | script.js:47-70 | scenario inputs for `AddToggleDeleteScenario` and `DeleteDuringEditScenario`: "Buy milk" and "Buy bread", with dates in 2099, trim to themselves and pass validation on 2026-10-15 |

## Left out

- Rendering, the DOM, the error element and the form fields are not modelled. `showError` and `clearError` are reduced to the `Validation.ValidationError` a failure carries and its `Validation.Message` text. The add button's label and the clearing of the form are left out.
- Event wiring at start-up (the load listener, the click, change, input and Enter-key handlers) is left out. Each handler is a method that callers invoke directly.
- The environment is passed in as parameters: today's date (the UTC date part of `new Date().toISOString()`), the id `Date.now()` returns, the answer to `confirm` and the collation behind `localeCompare` on names.
- Store.TaskStore.Load: local storage holds the parsed list rather than JSON text. An entry that fails to parse, or parses to something other than a list of tasks, cannot be represented, so the exception the code throws for it is not modelled.
- Tasks are values, not shared objects. The code mutates the object that `find` returns, which is the list's own element. The model replaces that element in the sequence, which has the same effect because nothing else holds a reference to it.
- StableSorting.Sort: `Array.prototype.sort` is a library call with no loop in this code. It is modelled by a reference function rather than by an engine's algorithm. `SortUnique` shows that any stable sort with a consistent comparator returns the same list.
- Store.TaskStore.SortTasks: with a `localeCompare` that is not a consistent comparator, the engine's order is implementation-defined. The model still returns `Sort`'s particular order, and the ordering lemmas (`SortByName`) assume a consistent collation.
- TaskOrders.DateCompare: `localeCompare` on the date keys is taken as ordinal comparison. For the digit-and-hyphen strings a date input yields, the two agree.
- JsStrings.Less: JavaScript compares strings by UTF-16 code units. The model compares Unicode scalar values, which order characters outside the Basic Multilingual Plane differently. Dates and trimmed whitespace are unaffected.
