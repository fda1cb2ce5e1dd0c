# Workout tracker: carry-over and skip

The workout tracker keeps one workout plan as a sequence of day records. Each
record holds a day label (`day`) and an ordered list of tasks. A task has a
`name`, an `isComplete` flag and an optional `isSkipped` flag. Two operations
move tasks between days:

- **carry-over** (`carryOverTasks(dayIndex)`) collects the day's incomplete
  tasks in order. If there are any, and a next day exists, it puts them in
  front of the next day's list. The source day keeps its list. A carried task
  therefore ends up on both days.
- **skip** (`skipTask(dayIndex, taskIndex)`) takes the task at `taskIndex`
  out of its day. If a next day exists, it puts that task at the head of the
  next day's list. On the last day the task is still taken out and is not put
  anywhere: that occurrence leaves the plan, while a copy on an earlier day
  (such as one left there by carry-over) stays.

In the application, the plan is a module-level array that both operations
change in place. Here it is an immutable value `plan: seq<Day>`. Each
operation is a pure function that returns the updated plan, and JavaScript
object sharing becomes value semantics.

Files:

- `plan.dfy` (module `Plan`) has the `Task` and `Day` records and the
  incomplete-task filter with its order, contents and concatenation laws. It
  also has `AllTasks`, the tasks of the whole plan, with split lemmas.
- `carry_over.dfy` (module `CarryOver`) models `carryOverTasks` and its
  properties.
- `skip.dfy` (module `Skip`) models `skipTask`, the index-based removal it
  performs, and its properties.

Two behaviours differ from what one might expect of operations that "move"
tasks. The model follows the code in both cases:

- Carry-over does not remove the carried tasks from the source day, so over
  the whole plan it duplicates them (`CarryOver.CarryOverDuplicatesCarried`).
  It conserves the incomplete work of the next day
  (`CarryOver.CarryOverKeepsIncompleteWork`), but it does not conserve the
  plan's task count.
- Skip on the last day is not a no-op. One occurrence of the task leaves the
  plan and the total count drops by one; a copy on an earlier day, such as
  one left there by carry-over, stays (`Skip.SkipAtLastDayDropsTask`).

## Model

| member | source | states |
|---|---|---|
| Plan.Incomplete | src/components/AutomaticCarryOver.js:4 | the filter keeps only incomplete tasks, keeps every incomplete task of the input, and never lengthens the list |
| Plan.IncompleteIsSubsequence | src/components/AutomaticCarryOver.js:4 | the filtered tasks appear in the same relative order as in the day |
| Plan.IncompleteMultiset | src/components/AutomaticCarryOver.js:4 | each incomplete task occurs in the filtered list as often as in the day, and no complete task occurs there |
| Plan.IncompleteAppend | src/components/AutomaticCarryOver.js:4 | filtering a concatenation is concatenating the filtered parts |
| Plan.IncompleteOfIncomplete | src/components/AutomaticCarryOver.js:4 | a list without complete tasks passes the filter unchanged, so filtering is idempotent |
| CarryOver.CarryOverTasks | src/components/AutomaticCarryOver.js:3-8 | plan length and labels are unchanged, every day but the next is unchanged (the source day included), the next day's list is the source day's incomplete tasks followed by its old list (so it grows by exactly their number), and with nothing to carry or no next day the plan is unchanged |
| CarryOver.CarriedTasksAreIncomplete | src/components/AutomaticCarryOver.js:4-6 | the prefix added to the next day is the source day's incomplete tasks, each of them incomplete and in their original order |
| CarryOver.CarryOverKeepsIncompleteWork | src/components/AutomaticCarryOver.js:4-6 | the next day's incomplete tasks afterwards are the source day's incomplete tasks followed by its own |
| CarryOver.CarryOverDuplicatesCarried | src/components/AutomaticCarryOver.js:4-6 | the plan's multiset of tasks gains one copy of each carried task and loses nothing |
| CarryOver.CarryOverTotalCount | src/components/AutomaticCarryOver.js:4-6 | the plan's total task count grows by the number of carried tasks, or by zero on the last day |
| CarryOver.CarryOverExample | src/components/AutomaticCarryOver.js:3-8 | on days A = [X incomplete, Y complete] and B = [Z], carrying day 0 gives B = [X, Z] and leaves A as it was |
| Skip.RemoveAt | src/components/SkipFunction.js:5 | filtering out index k leaves the elements before k followed by those after k, one fewer in all |
| Skip.RemoveAtInverse | src/components/SkipFunction.js:5 | reinserting the removed task at its index restores the day's list |
| Skip.RemoveAtIsSubsequence | src/components/SkipFunction.js:5 | the remaining tasks keep their relative order |
| Skip.RemoveAtMultiset | src/components/SkipFunction.js:5 | removal takes away exactly one occurrence of the removed task |
| Skip.SkipTask | src/components/SkipFunction.js:3-9 | plan length and labels are unchanged, only the day and the next may change, the day loses exactly the task at taskIndex with the rest in order (one task fewer), the next day (if any) gains it at its head (one task more) with its name, isComplete and isSkipped unchanged, and on the last day only the source day changes (the next-day index is then no day) |
| Skip.SkipPermutesTheTwoDays | src/components/SkipFunction.js:4-7 | with a next day, the two days' combined tasks are a permutation of what they held before |
| Skip.SkipKeepsPlanTasks | src/components/SkipFunction.js:4-8 | with a next day, the plan's multiset of tasks and its total count are unchanged |
| Skip.SkipAtLastDayDropsTask | src/components/SkipFunction.js:5-8 | on the last day one occurrence of the task leaves the plan, the total count drops by one, and a task that occurred once is no longer anywhere in the plan |
| Skip.SkipExample | src/components/SkipFunction.js:3-9 | on days A = [X, Y] and B = [Z], skipping task 1 of day 0 gives A = [X] and B = [Y, Z] |

## Left out

- The contents of the `WorkoutPlan` module are not part of this model. The plan is an arbitrary input sequence.
- Out-of-range `dayIndex`: the source throws a TypeError on `workoutPlan[dayIndex].tasks`. Both operations require `dayIndex < |plan|`.
- Skip.SkipTask: requires `taskIndex < |plan[dayIndex].tasks|`. For an out-of-range index the source removes nothing and unshifts `undefined` into the next day. A day list of `Task` values cannot hold `undefined`, so that path is not modelled.
- Plan.Incomplete: `isComplete` is a boolean. The source's `!task.isComplete` would also treat a missing or other falsy value as incomplete.
- In-place mutation and aliasing of the shared array are not modelled. This includes `unshift` on the next day's array, and carried task objects shared by two days (after carry-over, changing one would show in both). The model uses value semantics.
- `src/App.js`, `src/components/DailyTasks.js` and `src/components/DailyPreview.js` are routing and presentation. Their only logic is a label lookup defaulting to an empty list and a next-day preview lookup, and both exist to feed rendering.
- Local storage persistence, dates, time zones, rolling windows and daily rollover do not appear in the modelled code.
