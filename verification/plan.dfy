/**
 The workout plan: an ordered sequence of day records, each holding a day
 label and an ordered list of tasks. The application keeps one such plan as
 shared module-level state; here it is an immutable value that the
 operations take as a parameter and return updated.
 */
module Plan {

  /** A field that a task record may or may not carry. */
  datatype Option<+T> = None | Some(value: T)

  /** One exercise of a day. `isSkipped` is optional on the record. */
  datatype Task = Task(name: string, isComplete: bool, isSkipped: Option<bool>)

  /** One day of the plan: its label `day` ("Monday", ...) and its ordered tasks. */
  datatype Day = Day(day: string, tasks: seq<Task>)

  /** `a` is obtained from `b` by deleting some elements, keeping the order. */
  ghost predicate IsSubsequence<T>(a: seq<T>, b: seq<T>)
    decreases |b|
  {
    || |a| == 0
    || (&& |b| > 0
        && ((a[0] == b[0] && IsSubsequence(a[1..], b[1..])) || IsSubsequence(a, b[1..])))
  }

  /** No task of `ts` is complete. */
  predicate AllIncomplete(ts: seq<Task>)
  {
    forall k :: 0 <= k < |ts| ==> !ts[k].isComplete
  }

  /** Every list is a subsequence of itself. */
  lemma {:induction false} IsSubsequenceRefl<T>(ts: seq<T>)
    ensures IsSubsequence(ts, ts)
    decreases |ts|
  {
    if |ts| > 0 {
      IsSubsequenceRefl(ts[1..]);
    }
  }

  /** The incomplete tasks of `ts`: those whose `isComplete` is false, kept
      in their original order. */
  function Incomplete(ts: seq<Task>): (r: seq<Task>)
    ensures |r| <= |ts|
    ensures AllIncomplete(r)
    ensures forall t :: t in r ==> t in ts
    ensures forall k :: 0 <= k < |ts| && !ts[k].isComplete ==> ts[k] in r
  {
    if |ts| == 0 then []
    else if ts[0].isComplete then Incomplete(ts[1..])
    else [ts[0]] + Incomplete(ts[1..])
  }

  /** Filtering keeps the order: the result is a subsequence of the input. */
  lemma {:induction false} IncompleteIsSubsequence(ts: seq<Task>)
    ensures IsSubsequence(Incomplete(ts), ts)
    decreases |ts|
  {
    if |ts| > 0 {
      IncompleteIsSubsequence(ts[1..]);
      if !ts[0].isComplete {
        assert Incomplete(ts)[1..] == Incomplete(ts[1..]);
      } else if |Incomplete(ts)| > 0 {
        assert Incomplete(ts) == Incomplete(ts[1..]);
      }
    }
  }

  /** Filtering keeps every incomplete task exactly as many times as it occurs
      and drops every complete one. */
  lemma {:induction false} IncompleteMultiset(ts: seq<Task>)
    ensures forall t :: multiset(Incomplete(ts))[t] == if t.isComplete then 0 else multiset(ts)[t]
    decreases |ts|
  {
    if |ts| > 0 {
      IncompleteMultiset(ts[1..]);
      assert ts == [ts[0]] + ts[1..];
    }
  }

  /** Filtering distributes over concatenation. */
  lemma {:induction false} IncompleteAppend(a: seq<Task>, b: seq<Task>)
    ensures Incomplete(a + b) == Incomplete(a) + Incomplete(b)
    decreases |a|
  {
    if |a| > 0 {
      assert (a + b)[1..] == a[1..] + b;
      IncompleteAppend(a[1..], b);
    } else {
      assert a + b == b;
    }
  }

  /** A list with no complete task is its own filter; in particular
      filtering twice is filtering once. */
  lemma {:induction false} IncompleteOfIncomplete(ts: seq<Task>)
    requires AllIncomplete(ts)
    ensures Incomplete(ts) == ts
    decreases |ts|
  {
    if |ts| > 0 {
      IncompleteOfIncomplete(ts[1..]);
      assert ts == [ts[0]] + ts[1..];
    }
  }

  /** Every task of the plan, day after day. */
  function AllTasks(plan: seq<Day>): seq<Task>
    decreases |plan|
  {
    if |plan| == 0 then [] else plan[0].tasks + AllTasks(plan[1..])
  }

  /** The plan's tasks split around day `i`. */
  lemma {:induction false} AllTasksSplit(plan: seq<Day>, i: nat)
    requires i < |plan|
    ensures AllTasks(plan) == AllTasks(plan[..i]) + plan[i].tasks + AllTasks(plan[i + 1..])
    decreases i
  {
    if i == 0 {
      assert plan[..0] == [];
    } else {
      AllTasksSplit(plan[1..], i - 1);
      assert plan[1..][..i - 1] == plan[..i][1..];
      assert plan[1..][i - 1 + 1..] == plan[i + 1..];
      assert plan[..i][0] == plan[0];
    }
  }

  /** The plan's tasks split around two consecutive days `i` and `i + 1`. */
  lemma AllTasksSplitPair(plan: seq<Day>, i: nat)
    requires i + 1 < |plan|
    ensures AllTasks(plan)
         == AllTasks(plan[..i]) + plan[i].tasks + plan[i + 1].tasks + AllTasks(plan[i + 2..])
  {
    AllTasksSplit(plan, i);
    assert plan[i + 1..][0] == plan[i + 1];
    assert plan[i + 1..][1..] == plan[i + 2..];
  }

  /** Whether the plan has a day after `dayIndex`. Past the last day there is
      no next day record, and both operations then leave the next day alone. */
  predicate HasNextDay(plan: seq<Day>, dayIndex: nat)
  {
    dayIndex + 1 < |plan|
  }

  /** Same days, same labels: two plans differ at most in their task lists. */
  ghost predicate SameLabels(p: seq<Day>, q: seq<Day>)
  {
    |p| == |q| && forall d :: 0 <= d < |p| ==> p[d].day == q[d].day
  }

  /** The two plans agree on every day except those in `changed`. */
  ghost predicate SameExcept(p: seq<Day>, q: seq<Day>, changed: set<nat>)
  {
    |p| == |q| && forall d :: 0 <= d < |p| && d !in changed ==> p[d] == q[d]
  }
}
