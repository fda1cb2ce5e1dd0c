/**
 Skipping one task (`skipTask(dayIndex, taskIndex)`). The task at
 `taskIndex` is taken out of its day and, when a following day exists, put at
 the head of that day's list. On the last day of the plan the task is still
 taken out and is not put anywhere: that occurrence leaves the plan, while a
 copy on an earlier day (one left there by carry-over, say) stays.
 */
module Skip {
  import opened Plan

  /** `ts` without its element at index `k`: every other element is kept,
      in order. Defined by walking the list one element at a time. */
  function RemoveAt(ts: seq<Task>, k: nat): (r: seq<Task>)
    requires k < |ts|
    ensures |r| == |ts| - 1
    ensures r == ts[..k] + ts[k + 1..]
    decreases k
  {
    if k == 0 then ts[1..] else [ts[0]] + RemoveAt(ts[1..], k - 1)
  }

  /** `ts` with `t` inserted so that it lands at index `k`. */
  function InsertAt(ts: seq<Task>, k: nat, t: Task): seq<Task>
    requires k <= |ts|
  {
    ts[..k] + [t] + ts[k..]
  }

  /** Putting the removed element back where it was restores the list. */
  lemma {:induction false} RemoveAtInverse(ts: seq<Task>, k: nat)
    requires k < |ts|
    ensures InsertAt(RemoveAt(ts, k), k, ts[k]) == ts
  {
    var r := RemoveAt(ts, k);
    assert r[..k] == ts[..k];
    assert r[k..] == ts[k + 1..];
    assert ts == ts[..k] + [ts[k]] + ts[k + 1..];
  }

  /** Removal keeps the other elements in their order. */
  lemma {:induction false} RemoveAtIsSubsequence(ts: seq<Task>, k: nat)
    requires k < |ts|
    ensures IsSubsequence(RemoveAt(ts, k), ts)
    decreases k
  {
    if k == 0 {
      IsSubsequenceRefl(ts[1..]);
      assert IsSubsequence(ts[1..], ts[1..]);
    } else {
      RemoveAtIsSubsequence(ts[1..], k - 1);
      assert RemoveAt(ts, k)[1..] == RemoveAt(ts[1..], k - 1);
    }
  }

  /** Removal takes away exactly one occurrence of the removed task. */
  lemma {:induction false} RemoveAtMultiset(ts: seq<Task>, k: nat)
    requires k < |ts|
    ensures multiset(RemoveAt(ts, k)) + multiset{ts[k]} == multiset(ts)
  {
    assert ts == ts[..k] + [ts[k]] + ts[k + 1..];
  }

  /** The plan after skipping task `taskIndex` of day `dayIndex`. */
  function SkipTask(plan: seq<Day>, dayIndex: nat, taskIndex: nat): (r: seq<Day>)
    requires dayIndex < |plan| && taskIndex < |plan[dayIndex].tasks|
    // the plan keeps its days and labels; only the day and the next may
    // change (on the last day, `dayIndex + 1` is no day, so only the source)
    ensures SameLabels(r, plan)
    ensures SameExcept(r, plan, {dayIndex, dayIndex + 1})
    // the source day loses exactly the skipped task, the rest in order
    ensures r[dayIndex].tasks
         == plan[dayIndex].tasks[..taskIndex] + plan[dayIndex].tasks[taskIndex + 1..]
    ensures |r[dayIndex].tasks| == |plan[dayIndex].tasks| - 1
    // the next day, when there is one, gains it at its head, unchanged
    ensures HasNextDay(plan, dayIndex) ==>
      r[dayIndex + 1].tasks == [plan[dayIndex].tasks[taskIndex]] + plan[dayIndex + 1].tasks
    ensures HasNextDay(plan, dayIndex) ==>
      && |r[dayIndex + 1].tasks| == |plan[dayIndex + 1].tasks| + 1
      && r[dayIndex + 1].tasks[0].name == plan[dayIndex].tasks[taskIndex].name
      && r[dayIndex + 1].tasks[0].isComplete == plan[dayIndex].tasks[taskIndex].isComplete
      && r[dayIndex + 1].tasks[0].isSkipped == plan[dayIndex].tasks[taskIndex].isSkipped
  {
    var taskToSkip := plan[dayIndex].tasks[taskIndex];
    var source := plan[dayIndex];
    var removed := plan[dayIndex := source.(tasks := RemoveAt(source.tasks, taskIndex))];
    if HasNextDay(plan, dayIndex) then
      var next := removed[dayIndex + 1];
      removed[dayIndex + 1 := next.(tasks := [taskToSkip] + next.tasks)]
    else
      removed
  }

  /** With a next day, the two days together hold the same tasks as before,
      each as many times as before: nothing is lost or duplicated. */
  lemma SkipPermutesTheTwoDays(plan: seq<Day>, dayIndex: nat, taskIndex: nat)
    requires dayIndex < |plan| && taskIndex < |plan[dayIndex].tasks|
    requires HasNextDay(plan, dayIndex)
    ensures var r := SkipTask(plan, dayIndex, taskIndex);
      multiset(r[dayIndex].tasks + r[dayIndex + 1].tasks)
      == multiset(plan[dayIndex].tasks + plan[dayIndex + 1].tasks)
  {
    var ts := plan[dayIndex].tasks;
    RemoveAtMultiset(ts, taskIndex);
  }

  /** With a next day, the whole plan holds the same tasks as before. */
  lemma SkipKeepsPlanTasks(plan: seq<Day>, dayIndex: nat, taskIndex: nat)
    requires dayIndex < |plan| && taskIndex < |plan[dayIndex].tasks|
    requires HasNextDay(plan, dayIndex)
    ensures multiset(AllTasks(SkipTask(plan, dayIndex, taskIndex))) == multiset(AllTasks(plan))
    ensures |AllTasks(SkipTask(plan, dayIndex, taskIndex))| == |AllTasks(plan)|
  {
    var r := SkipTask(plan, dayIndex, taskIndex);
    AllTasksSplitPair(plan, dayIndex);
    AllTasksSplitPair(r, dayIndex);
    assert r[..dayIndex] == plan[..dayIndex];
    assert r[dayIndex + 2..] == plan[dayIndex + 2..];
    SkipPermutesTheTwoDays(plan, dayIndex, taskIndex);
    var before, after := AllTasks(plan[..dayIndex]), AllTasks(plan[dayIndex + 2..]);
    calc {
      multiset(AllTasks(r));
      multiset(before) + multiset(r[dayIndex].tasks + r[dayIndex + 1].tasks) + multiset(after);
      multiset(before) + multiset(plan[dayIndex].tasks + plan[dayIndex + 1].tasks) + multiset(after);
      multiset(AllTasks(plan));
    }
    assert |AllTasks(r)| == |multiset(AllTasks(r))|;
    assert |AllTasks(plan)| == |multiset(AllTasks(plan))|;
  }

  /** On the last day one occurrence of the skipped task leaves the plan and
      the total task count drops by one. Only a task that occurred once
      occurs nowhere any more; a copy on an earlier day stays. */
  lemma SkipAtLastDayDropsTask(plan: seq<Day>, dayIndex: nat, taskIndex: nat)
    requires dayIndex < |plan| && taskIndex < |plan[dayIndex].tasks|
    requires !HasNextDay(plan, dayIndex)
    ensures var t := plan[dayIndex].tasks[taskIndex];
      && multiset(AllTasks(SkipTask(plan, dayIndex, taskIndex))) + multiset{t} == multiset(AllTasks(plan))
      && |AllTasks(SkipTask(plan, dayIndex, taskIndex))| == |AllTasks(plan)| - 1
      && (multiset(AllTasks(plan))[t] == 1 ==> t !in AllTasks(SkipTask(plan, dayIndex, taskIndex)))
  {
    var r := SkipTask(plan, dayIndex, taskIndex);
    var ts := plan[dayIndex].tasks;
    var t := ts[taskIndex];
    AllTasksSplit(plan, dayIndex);
    AllTasksSplit(r, dayIndex);
    assert r[..dayIndex] == plan[..dayIndex];
    assert r[dayIndex + 1..] == plan[dayIndex + 1..];
    RemoveAtMultiset(ts, taskIndex);
    var before, after := AllTasks(plan[..dayIndex]), AllTasks(plan[dayIndex + 1..]);
    calc {
      multiset(AllTasks(r)) + multiset{t};
      multiset(before) + multiset(RemoveAt(ts, taskIndex)) + multiset(after) + multiset{t};
      multiset(before) + (multiset(RemoveAt(ts, taskIndex)) + multiset{t}) + multiset(after);
      multiset(before + ts + after);
    }
    assert |AllTasks(r)| == |multiset(AllTasks(r))|;
    assert |AllTasks(plan)| == |multiset(AllTasks(plan))|;
  }

  /** The worked example: day "A" with X and Y, day "B" with Z. Skipping
      task 1 of day 0 leaves day 0 with X and gives day 1 the list Y, Z. */
  lemma SkipExample()
    ensures var x := Task("X", false, None);
      var y := Task("Y", false, Some(true));
      var z := Task("Z", false, None);
      var plan := [Day("A", [x, y]), Day("B", [z])];
      SkipTask(plan, 0, 1) == [Day("A", [x]), Day("B", [y, z])]
  {
    var x := Task("X", false, None);
    var y := Task("Y", false, Some(true));
    var z := Task("Z", false, None);
    var plan := [Day("A", [x, y]), Day("B", [z])];
    var r := SkipTask(plan, 0, 1);
    assert r[0].tasks == [x];
    assert r[1].tasks == [y, z];
    assert r[0] == Day("A", [x]);
    assert r[1] == Day("B", [y, z]);
  }
}
