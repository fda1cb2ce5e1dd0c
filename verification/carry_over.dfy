/**
 Carry-over of a day's unfinished work to the following day
 (`carryOverTasks(dayIndex)`). The incomplete tasks of the day are collected
 in order and, when there are any and a following day exists, put in front of
 that day's list. The source day keeps its list: a carried task ends up on
 both days.
 */
module CarryOver {
  import opened Plan

  /** The plan after carrying the incomplete tasks of day `dayIndex` over to
      the next day. */
  function CarryOverTasks(plan: seq<Day>, dayIndex: nat): (r: seq<Day>)
    requires dayIndex < |plan|
    // the plan keeps its days and labels; only the next day may change
    ensures SameLabels(r, plan)
    ensures SameExcept(r, plan, {dayIndex + 1})
    // the source day is left as it was
    ensures r[dayIndex] == plan[dayIndex]
    // the next day starts with the carried tasks, then its own tasks
    ensures HasNextDay(plan, dayIndex) ==>
      r[dayIndex + 1].tasks == Incomplete(plan[dayIndex].tasks) + plan[dayIndex + 1].tasks
    // so it grows by exactly the number of incomplete tasks of the source day
    ensures HasNextDay(plan, dayIndex) ==>
      |r[dayIndex + 1].tasks| == |plan[dayIndex + 1].tasks| + |Incomplete(plan[dayIndex].tasks)|
    // nothing to carry, or nowhere to carry it: the plan is unchanged
    ensures |Incomplete(plan[dayIndex].tasks)| == 0 || !HasNextDay(plan, dayIndex) ==> r == plan
  {
    var incomplete := Incomplete(plan[dayIndex].tasks);
    if |incomplete| > 0 && HasNextDay(plan, dayIndex) then
      var next := plan[dayIndex + 1];
      plan[dayIndex + 1 := next.(tasks := incomplete + next.tasks)]
    else
      plan
  }

  /** The tasks put in front of the next day are exactly the source day's
      incomplete tasks, in their order there, and each of them is incomplete. */
  lemma CarriedTasksAreIncomplete(plan: seq<Day>, dayIndex: nat)
    requires dayIndex < |plan| && HasNextDay(plan, dayIndex)
    ensures var carried := Incomplete(plan[dayIndex].tasks);
      && CarryOverTasks(plan, dayIndex)[dayIndex + 1].tasks[..|carried|] == carried
      && AllIncomplete(CarryOverTasks(plan, dayIndex)[dayIndex + 1].tasks[..|carried|])
      && IsSubsequence(carried, plan[dayIndex].tasks)
  {
    IncompleteIsSubsequence(plan[dayIndex].tasks);
  }

  /** The incomplete work of the next day afterwards is the source day's
      incomplete work followed by the next day's own: nothing incomplete is
      lost on the way. */
  lemma {:induction false} CarryOverKeepsIncompleteWork(plan: seq<Day>, dayIndex: nat)
    requires dayIndex < |plan| && HasNextDay(plan, dayIndex)
    ensures var r := CarryOverTasks(plan, dayIndex);
      Incomplete(r[dayIndex + 1].tasks)
      == Incomplete(plan[dayIndex].tasks) + Incomplete(plan[dayIndex + 1].tasks)
  {
    var carried := Incomplete(plan[dayIndex].tasks);
    IncompleteAppend(carried, plan[dayIndex + 1].tasks);
    IncompleteOfIncomplete(carried);
  }

  /** Over the whole plan, carry-over adds one copy of each carried task and
      removes nothing, since the source day keeps its tasks. */
  lemma CarryOverDuplicatesCarried(plan: seq<Day>, dayIndex: nat)
    requires dayIndex < |plan|
    ensures var r := CarryOverTasks(plan, dayIndex);
      var added := if HasNextDay(plan, dayIndex) then Incomplete(plan[dayIndex].tasks) else [];
      multiset(AllTasks(r)) == multiset(AllTasks(plan)) + multiset(added)
  {
    var r := CarryOverTasks(plan, dayIndex);
    if HasNextDay(plan, dayIndex) {
      var n := dayIndex + 1;
      var carried := Incomplete(plan[dayIndex].tasks);
      AllTasksSplit(plan, n);
      AllTasksSplit(r, n);
      assert r[..n] == plan[..n];
      assert r[n + 1..] == plan[n + 1..];
      var before, after := AllTasks(plan[..n]), AllTasks(plan[n + 1..]);
      calc {
        multiset(AllTasks(r));
        multiset(before + (carried + plan[n].tasks) + after);
        multiset(before) + multiset(carried) + multiset(plan[n].tasks) + multiset(after);
        multiset(before + plan[n].tasks + after) + multiset(carried);
      }
    }
  }

  /** Hence the plan's total task count grows by the number of carried tasks. */
  lemma CarryOverTotalCount(plan: seq<Day>, dayIndex: nat)
    requires dayIndex < |plan|
    ensures |AllTasks(CarryOverTasks(plan, dayIndex))|
         == |AllTasks(plan)| + if HasNextDay(plan, dayIndex) then |Incomplete(plan[dayIndex].tasks)| else 0
  {
    CarryOverDuplicatesCarried(plan, dayIndex);
    var r := CarryOverTasks(plan, dayIndex);
    assert |AllTasks(r)| == |multiset(AllTasks(r))|;
    assert |AllTasks(plan)| == |multiset(AllTasks(plan))|;
  }

  /** The worked example: day "A" with X (incomplete) and Y (complete), then
      day "B" with Z. Carrying day 0 over gives day 1 the list X, Z. */
  lemma CarryOverExample()
    ensures var x := Task("X", false, Some(false));
      var y := Task("Y", true, None);
      var z := Task("Z", false, None);
      var plan := [Day("A", [x, y]), Day("B", [z])];
      CarryOverTasks(plan, 0) == [Day("A", [x, y]), Day("B", [x, z])]
  {
    var x := Task("X", false, Some(false));
    var y := Task("Y", true, None);
    assert [x, y][1..] == [y];
    assert [y][1..] == [];
    assert Incomplete([y]) == [];
    assert Incomplete([x, y]) == [x] + Incomplete([y]);
    var z := Task("Z", false, None);
    var plan := [Day("A", [x, y]), Day("B", [z])];
    assert Incomplete(plan[0].tasks) == [x];
    var r := CarryOverTasks(plan, 0);
    assert r[1].tasks == [x] + [z];
    assert r[1] == Day("B", [x, z]);
    assert r[0] == plan[0];
  }
}
