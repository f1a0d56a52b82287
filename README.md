# Study planner task list: a Dafny model

The study planner is a single-page task list. A user adds tasks with a name,
a deadline and a priority. The page keeps them in an array, saves that array
to local storage after every change, and shows it sorted by nearest deadline.
Under every task a countdown says how long is left and flags the task as
urgent.

This project models the two parts of `script.jss.js` that hold logic:

- **Countdown** (`countdown.dfy`, pure functions). `GetTimeLeft` maps a
  deadline and the current time, both integer milliseconds, to the countdown
  text and the urgency flag. The model keeps the three display branches
  (days/hours/minutes, hours/minutes/seconds, minutes/seconds) and the exact
  strings, including the two emoji. `Digits` is decimal printing as a
  template literal does it. The lemmas show that:
  - the breakdown is exact and unique;
  - which branch is shown depends only on thresholds of the time left;
  - urgency means fewer than two hours are left;
  - the text determines the numbers it shows.
- **Task store** (`tasks.dfy` and `store.dfy`). `Tasks` defines the `Task`
  record and stable insertion by deadline (`Insert`, `Sort`). It has an
  insertion-sort method with loops, `SortByDeadline`, proved equal to `Sort`.
  It also has the id filter `Without`. The lemmas show that `Sort` is ordered,
  a permutation and stable, and that any sorted, stable reordering equals it.
  They also give the filter's properties and how the filter and the sort
  commute. `Store.TaskStore` is a class holding the in-memory array `tasks`
  and the saved snapshot `saved`. Its methods are the page's handlers, one
  step at a time in the page's order: change the array, save it, render it,
  where rendering sorts in place first.

Inputs the page takes from the browser are parameters here:

- the current time, for `GetTimeLeft`;
- the new task's id (`Date.now()`) and creation stamp (`toISOString()`), for
  `Push` and `SubmitTask`;
- the stored snapshot, for `TaskStore.Load`.

A deadline is the millisecond instant that the form's date-time string
denotes.

Page start-up (script.jss.js:10-14) is `TaskStore.Load` followed by
`TaskStore.RenderTasks`: the loaded array is sorted before it is first shown.
`Store.ExampleRun` is a worked example: two tasks are added, the nearer one is
deleted, then the list is cleared.

Some behaviours of the code are easy to get wrong:

- A deadline exactly equal to the current time is not overdue. The code tests
  `diff < 0` and shows `0m 0s`, urgent (`DeadlineNow`).
- Task ids are not unique by construction. Two tasks created in the same
  millisecond share an id, and deleting that id removes both (`Without`'s
  contract). `DeleteUndoesAdd` therefore needs the new id to be fresh.
- The saved snapshot is written before rendering sorts the array. So it holds
  the order before sorting, with a new task last (`SubmitTask`). It is a
  permutation of the array that is shown.
- A missing snapshot gives an empty list. A corrupt one is not quietly
  discarded: `JSON.parse` throws (see Left out).

## Model

| member | source | states |
|---|---|---|
| `Countdown.GetTimeLeft` | script.jss.js:116-145 | urgent exactly when less than two hours are left (overdue included); the text is the overdue marker exactly when the deadline is strictly before now |
| `Countdown.Decompose` | script.jss.js:128-131 | hours < 24, minutes < 60, seconds < 60, and days·86400000 + hours·3600000 + minutes·60000 + seconds·1000 + diff % 1000 = diff |
| `Countdown.NestedRemainders` | script.jss.js:128-131 | the remainder by a day, then by an hour, is the remainder by an hour (likewise hour/minute and minute/second), so the source's per-unit remainders agree |
| `Countdown.DecomposeUnique` | script.jss.js:128-131 | any in-range breakdown with a sub-second remainder that adds up to diff is the computed one |
| `Countdown.LayoutByTimeLeft` | script.jss.js:133-140 | days/hours/minutes iff at least a day is left, hours/minutes/seconds iff at least an hour but less than a day, minutes/seconds iff less than an hour; the shown numbers are within their clock ranges |
| `Countdown.UrgentIffUnderTwoHours` | script.jss.js:142 | for a deadline not passed, urgent iff days = 0 and hours < 2, iff fewer than 7200000 ms are left |
| `Countdown.Layout` | script.jss.js:133-140 | days/hours/minutes iff days > 0, hours/minutes/seconds iff days = 0 and hours > 0, minutes/seconds otherwise |
| `Countdown.Body` | script.jss.js:135-139 | the text after the prefix starts with the leading number's first digit |
| `Countdown.Text` | script.jss.js:133-140 | every remaining-time text starts with the `⏱️ Time Left: ` prefix and never equals the overdue marker |
| `Countdown.Digits` | script.jss.js:135-139 | the decimal text of a number is non-empty and all digits |
| `Countdown.ValueOfDigits` | script.jss.js:135-139 | reading the decimal text back gives the number |
| `Countdown.TextInjective` | script.jss.js:133-140 | two remaining-time texts are equal only if layout and every number agree |
| `Countdown.SameTextSameShown` | script.jss.js:116-145 | two deadlines show the same text at one moment only if both are overdue or both agree on every unit shown |
| `Countdown.NinetySecondsLeft` | script.jss.js:128-142 | 90 s left shows `1m 30s`, urgent |
| `Countdown.ThreeHoursLeft` | script.jss.js:128-142 | 3 h left shows `3h 0m 0s`, not urgent |
| `Countdown.TwentyFiveHoursLeft` | script.jss.js:128-142 | 25 h left shows `1d 1h 0m`, not urgent |
| `Countdown.DeadlineNow` | script.jss.js:119-142 | zero time left is not overdue: `0m 0s`, urgent; 1 ms late is overdue, urgent |
| `Tasks.Without` | script.jss.js:150 | a task is kept iff it was in the list and its id differs; never longer than the input |
| `Tasks.WithoutAppend` | script.jss.js:150 | filtering a concatenation is concatenating the filtered parts, so kept tasks keep their relative order |
| `Tasks.WithoutAbsent` | script.jss.js:150 | deleting an id no task has leaves the list unchanged |
| `Tasks.WithoutIdempotent` | script.jss.js:150 | deleting the same id twice equals deleting it once |
| `Tasks.WithoutShrinksIff` | script.jss.js:150 | the list gets shorter iff some task has the id |
| `Tasks.WithoutSorted` | script.jss.js:150 | deleting from a deadline-ordered list keeps it ordered |
| `Tasks.DeleteUndoesAdd` | script.jss.js:24-32 | deleting the id of a just-appended task with a fresh id gives back the list before the append |
| `Tasks.DeleteCommutesWithSort` | script.jss.js:150-152 | deleting from the sorted list equals sorting the filtered list |
| `Tasks.Insert` | script.jss.js:43 | placing one task into the list grows it by exactly one |
| `Tasks.Sort` | script.jss.js:43 | the deadline order of a list has the same length as the list |
| `Tasks.InsertMultiset` | script.jss.js:43 | inserting a task adds exactly that task |
| `Tasks.InsertSorted` | script.jss.js:43 | inserting into a deadline-ordered list keeps it ordered |
| `Tasks.InsertDueAt` | script.jss.js:43 | an inserted task comes after every task already due at its deadline (stability of one step) |
| `Tasks.SortSorted` | script.jss.js:42-44 | the sort result is ordered by deadline and a permutation of the input |
| `Tasks.SortStable` | script.jss.js:42-44 | for every deadline, the tasks due then keep their input order |
| `Tasks.SortCorrect` | script.jss.js:42-44 | ordered, a permutation and stable together |
| `Tasks.StableSortUnique` | script.jss.js:43 | two deadline-ordered lists with the same order at every deadline are equal, so every stable sort by deadline gives the same result |
| `Tasks.SortKeepsSorted` | script.jss.js:53 | sorting an already ordered list changes nothing, so rendering twice is rendering once |
| `Tasks.InsertionPoint` | script.jss.js:43 | the inner scan of the insertion sort stops where `Insert` places the task |
| `Tasks.SortByDeadline` | script.jss.js:42-44 | the loop-based insertion sort returns `Sort` of its input: ordered, a permutation and stable |
| `Store.TaskStore.Load` | script.jss.js:2 | a missing snapshot starts an empty list; a present one is used as it is |
| `Store.TaskStore.Push` | script.jss.js:24-32 | exactly the new task is appended; length grows by one and earlier tasks are unchanged |
| `Store.TaskStore.SortTasks` | script.jss.js:42-44 | the array becomes `Sort` of itself: ordered, same tasks, ties in their old order |
| `Store.TaskStore.SaveTasks` | script.jss.js:47-49 | the snapshot becomes the whole array |
| `Store.TaskStore.RenderTasks` | script.jss.js:52-64 | the array is sorted first; the view is the empty state iff there are no tasks, otherwise the tasks in sorted order |
| `Store.TaskStore.SubmitTask` | script.jss.js:17-39 | the snapshot is the old array plus the new task last; the array is their sort; on a sorted array the new task lands after every task due no later |
| `Store.TaskStore.DeleteTask` | script.jss.js:148-155 | snapshot and array keep exactly the tasks with another id; the array is sorted and, if it was sorted before, is the filtered list itself |
| `Store.ExampleRun` | script.jss.js:17-165 | adding a task due in an hour and one due in ten minutes shows the nearer first; deleting it leaves the other; clearing shows the empty state |
| `Store.TaskStore.ClearAll` | script.jss.js:158-165 | array and snapshot are empty and the empty state is shown |

## Left out

- Rendering to HTML, the card markup and `formatDeadline`'s locale text (script.jss.js:55-96) are left out. These are display only. The model keeps just the choice between the empty state and the task cards, in order.
- `updateCountdowns` (script.jss.js:99-113) is left out. It writes `GetTimeLeft`'s text and urgency into each task's element and toggles the `urgent` class, which is DOM work. So are the one-second `setInterval` at start-up (script.jss.js:13) and the notification toast, with its timers (script.jss.js:168-190).
- The `confirm` dialogs (script.jss.js:149, 159) are user input. `DeleteTask` and `ClearAll` model the confirmed path; the declined path changes nothing.
- `taskForm.reset()` (script.jss.js:35) only clears form fields, so it is left out.
- JSON encoding and decoding and the storage API (script.jss.js:2, 48) are browser facilities. The snapshot is the task list itself, or `None` when absent. A corrupt snapshot makes `JSON.parse` throw at start-up, and a stored `null` also gives an empty list; the model does not capture either. Write failures of the storage are not modelled.
- Date parsing, `Date.now()` and `toISOString()` are host library calls; their values are parameters. Deadlines that do not parse (`NaN`) are not modelled: the sort comparator and the countdown are meaningless for them. The required form fields that keep empty names and deadlines out are not modelled either.
- JavaScript numbers are treated as exact integers. Millisecond timestamps are far below 2^53, so this changes nothing for real inputs. Floating point is not modelled.
- The engine's sort algorithm: `Array.prototype.sort` is the engine's own algorithm, not this insertion sort. The contract states only what ECMAScript requires of any stable sort (ordered, a permutation, ties kept), and `StableSortUnique` shows that this fixes the result.
