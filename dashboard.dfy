/**
 * The dashboard's task logic: toggling a task's completion, the one-shot
 * celebration guard, the completed count and the progress percentage, and the
 * goal title shown beside a task.
 */
module Dashboard {
  import opened Options
  import opened Seqs

  datatype Goal = Goal(
    id: int,
    title: string,
    timeline: string,
    progress: int,
    status: string,
    category: string,
    currentPhase: string,
    nextMilestone: string,
    daysLeft: int,
    userId: string)

  datatype Task = Task(
    id: int,
    text: string,
    completed: bool,
    goalId: int,
    timeEstimate: string,
    aiNote: Option<string>,
    userId: string)

  /** `tasks.map(...)` in toggleTask: every task with that id has `completed` flipped. */
  function Toggle(tasks: seq<Task>, taskId: int): (r: seq<Task>)
    ensures |r| == |tasks|
    ensures forall i :: 0 <= i < |tasks| ==>
      r[i] == if tasks[i].id == taskId then tasks[i].(completed := !tasks[i].completed) else tasks[i]
  {
    if tasks == [] then []
    else [if tasks[0].id == taskId then tasks[0].(completed := !tasks[0].completed) else tasks[0]]
         + Toggle(tasks[1..], taskId)
  }

  predicate IsCompleted(t: Task) { t.completed }

  /** `tasks.filter(t => t.completed).length`. */
  function CompletedCount(tasks: seq<Task>): (c: nat)
    ensures c <= |tasks|
  {
    |Filter(tasks, IsCompleted)|
  }

  /** `tasks.every(task => task.completed)`: true of the empty list. */
  predicate AllCompleted(tasks: seq<Task>) {
    forall i :: 0 <= i < |tasks| ==> tasks[i].completed
  }

  /** `completed count < length`: false of the empty list. */
  predicate WasNotComplete(tasks: seq<Task>) {
    CompletedCount(tasks) < |tasks|
  }

  /**
   * `Math.round(completed / total * 100)`, or 0 for no tasks: the integer
   * nearest to 100 c / n, halves rounded up, computed as floor((200 c + n) / (2 n)).
   */
  function ProgressPercent(tasks: seq<Task>): (r: int)
    ensures |tasks| == 0 ==> r == 0
    ensures |tasks| > 0 ==>
      (2 * r - 1) * |tasks| <= 200 * CompletedCount(tasks) < (2 * r + 1) * |tasks|
  {
    var n := |tasks|;
    if n > 0 then
      var a := 200 * CompletedCount(tasks) + n;
      var q := a / (2 * n);
      assert a == q * (2 * n) + a % (2 * n) && 0 <= a % (2 * n) < 2 * n;
      assert (2 * q - 1) * n == q * (2 * n) - n;
      assert (2 * q + 1) * n == q * (2 * n) + n;
      q
    else 0
  }

  /** The celebration fires when the new list is all complete, the old one was not, and it has not been shown. */
  predicate ShouldCelebrate(before: seq<Task>, after: seq<Task>, shown: bool) {
    AllCompleted(after) && WasNotComplete(before) && !shown
  }

  /** The guard after a toggle: set when the celebration fires, cleared when the list is not all complete. */
  function NextShown(before: seq<Task>, after: seq<Task>, shown: bool): bool {
    if ShouldCelebrate(before, after, shown) then true
    else if !AllCompleted(after) && shown then false
    else shown
  }

  /** The position of the first goal with that id, or -1 (`findIndex`). */
  function FirstGoalWithId(goals: seq<Goal>, goalId: int): (k: int)
    ensures -1 <= k < |goals|
    ensures k == -1 <==> forall i :: 0 <= i < |goals| ==> goals[i].id != goalId
    ensures 0 <= k ==> goals[k].id == goalId && forall j :: 0 <= j < k ==> goals[j].id != goalId
  {
    if goals == [] then -1
    else if goals[0].id == goalId then 0
    else
      var k := FirstGoalWithId(goals[1..], goalId);
      assert forall i :: 1 <= i < |goals| ==> goals[i] == goals[1..][i - 1];
      if k == -1 then -1 else k + 1
  }

  /**
   * `goals.find(g => g.id === task.goalId)?.title`: the title of the first goal
   * with the task's goal id, or nothing when no goal has it.
   */
  function GoalTitleFor(goals: seq<Goal>, goalId: int): (r: Option<string>)
    ensures r.None? <==> forall i :: 0 <= i < |goals| ==> goals[i].id != goalId
    ensures r.Some? ==> exists i :: 0 <= i < |goals| && goals[i].id == goalId && goals[i].title == r.value
                                    && forall j :: 0 <= j < i ==> goals[j].id != goalId
  {
    var k := FirstGoalWithId(goals, goalId);
    if k == -1 then None else Some(goals[k].title)
  }

  // ---------------------------------------------------------------------------
  // Properties
  // ---------------------------------------------------------------------------

  /** Toggling the same id twice gives back the original list. */
  lemma ToggleTwice(tasks: seq<Task>, taskId: int)
    ensures Toggle(Toggle(tasks, taskId), taskId) == tasks
  {
  }

  /** Toggling an id no task has changes nothing; a toggle only ever changes `completed`. */
  lemma ToggleAbsentOrCompletedOnly(tasks: seq<Task>, taskId: int)
    ensures (forall i :: 0 <= i < |tasks| ==> tasks[i].id != taskId) ==> Toggle(tasks, taskId) == tasks
    ensures forall i :: 0 <= i < |tasks| ==>
      Toggle(tasks, taskId)[i].(completed := tasks[i].completed) == tasks[i]
  {
  }

  /** "Not complete" is exactly "not every task is completed". */
  lemma WasNotCompleteIff(tasks: seq<Task>)
    ensures WasNotComplete(tasks) <==> !AllCompleted(tasks)
    ensures AllCompleted(tasks) <==> CompletedCount(tasks) == |tasks|
  {
    FilterKeepsAll(tasks, IsCompleted);
  }

  lemma MulMonotone(x: int, y: int, b: int)
    requires x <= y && 0 <= b
    ensures x * b <= y * b
  {
    assert y * b - x * b == (y - x) * b;
  }

  /** `a / b` is at least `q` when `q * b <= a`. */
  lemma DivAtLeast(a: int, b: int, q: int)
    requires b > 0 && q * b <= a
    ensures q <= a / b
  {
    var d, m := a / b, a % b;
    assert a == d * b + m && 0 <= m < b;
    if d < q {
      MulMonotone(d + 1, q, b);
    }
  }

  /** `a / b` is below `q + 1` when `a < (q + 1) * b`. */
  lemma DivAtMost(a: int, b: int, q: int)
    requires b > 0 && a < (q + 1) * b
    ensures a / b <= q
  {
    var d, m := a / b, a % b;
    assert a == d * b + m && 0 <= m < b;
    if d > q {
      MulMonotone(q + 1, d, b);
    }
  }

  /** The percentage lies in [0, 100], is 0 for no tasks, and is 100 whenever a non-empty list is all complete. */
  lemma ProgressBounds(tasks: seq<Task>)
    ensures 0 <= ProgressPercent(tasks) <= 100
    ensures tasks == [] ==> ProgressPercent(tasks) == 0
    ensures tasks != [] && AllCompleted(tasks) ==> ProgressPercent(tasks) == 100
    ensures tasks != [] && !AllCompleted(tasks) && |tasks| < 200 ==> ProgressPercent(tasks) < 100
  {
    var n := |tasks|;
    if n > 0 {
      var c := CompletedCount(tasks);
      var a := 200 * c + n;
      DivAtLeast(a, 2 * n, 0);
      DivAtMost(a, 2 * n, 100);
      WasNotCompleteIff(tasks);
      if AllCompleted(tasks) {
        DivAtLeast(a, 2 * n, 100);
      } else if n < 200 {
        DivAtMost(a, 2 * n, 99);
      }
    }
  }

  /** With fewer than 200 tasks the banner condition "100%" means exactly "non-empty and all complete". */
  lemma ProgressFullIffAllComplete(tasks: seq<Task>)
    requires |tasks| < 200
    ensures ProgressPercent(tasks) == 100 <==> tasks != [] && AllCompleted(tasks)
  {
    ProgressBounds(tasks);
  }

  /** A list of `n` completed tasks for `FullBannerWithIncompleteTask`. */
  function CompletedTasks(n: nat): (ts: seq<Task>)
    ensures |ts| == n && AllCompleted(ts)
  {
    if n == 0 then [] else CompletedTasks(n - 1) + [Task(n, "", true, 0, "", None, "")]
  }

  /** `n - 1` completed tasks followed by one open task. */
  function AllButLast(n: nat): (ts: seq<Task>)
    requires n > 0
    ensures |ts| == n && !ts[n - 1].completed
  {
    CompletedTasks(n - 1) + [Task(0, "", false, 0, "", None, "")]
  }

  /**
   * As written, the "All tasks completed!" banner and the 100% label appear
   * while a task is still open once there are 200 tasks or more: with
   * `n - 1` of `n` complete the rounding already reaches 100 (399 of 400, say).
   */
  lemma FullBannerWithIncompleteTask(n: nat)
    requires n >= 200
    ensures ProgressPercent(AllButLast(n)) == 100 && !AllCompleted(AllButLast(n))
  {
    var done := CompletedTasks(n - 1);
    var last := [Task(0, "", false, 0, "", None, "")];
    var ts := done + last;
    assert ts == AllButLast(n);
    FilterConcat(done, last, IsCompleted);
    FilterKeepsAll(done, IsCompleted);
    assert Filter(last, IsCompleted) == [];
    assert CompletedCount(ts) == n - 1;
    DivAtLeast(200 * (n - 1) + n, 2 * n, 100);
    DivAtMost(200 * (n - 1) + n, 2 * n, 100);
  }

  /** The banner as evidently intended: shown exactly when there are tasks and all are complete. */
  predicate ShowsAllCompleteBanner(tasks: seq<Task>) {
    tasks != [] && CompletedCount(tasks) == |tasks|
  }

  lemma ShowsAllCompleteBannerIff(tasks: seq<Task>)
    ensures ShowsAllCompleteBanner(tasks) <==> tasks != [] && AllCompleted(tasks)
    ensures ShowsAllCompleteBanner(tasks) ==> ProgressPercent(tasks) == 100
  {
    WasNotCompleteIff(tasks);
    ProgressBounds(tasks);
  }

  /** The celebration only fires on a step from "not all complete" to "all complete", with the guard unset. */
  lemma CelebrationOnlyOnTransition(before: seq<Task>, after: seq<Task>, shown: bool)
    ensures ShouldCelebrate(before, after, shown) ==> AllCompleted(after) && !AllCompleted(before) && !shown
    ensures ShouldCelebrate(before, after, shown) ==> NextShown(before, after, shown)
    ensures before == [] ==> !ShouldCelebrate(before, after, shown)
  {
    WasNotCompleteIff(before);
  }

  /**
   * The guard as a two-state machine: it is cleared whenever the resulting
   * list is not all complete, it is only ever set on an all-complete list, and
   * while it is set (so the list stays all complete) it suppresses the celebration.
   */
  lemma GuardFollowsAggregate(before: seq<Task>, after: seq<Task>, shown: bool)
    ensures !AllCompleted(after) ==> !NextShown(before, after, shown)
    ensures NextShown(before, after, shown) ==> AllCompleted(after)
    ensures shown ==> !ShouldCelebrate(before, after, shown)
  {
  }

  /**
   * When the guard is consistent with the list (set only when all tasks are
   * complete), the celebration fires exactly on the step into "all complete":
   * once per transition, and again after any step back out.
   */
  lemma CelebratesExactlyOnEntry(before: seq<Task>, after: seq<Task>, shown: bool)
    requires shown ==> AllCompleted(before)
    ensures ShouldCelebrate(before, after, shown) <==> !AllCompleted(before) && AllCompleted(after)
  {
    WasNotCompleteIff(before);
  }

  /** The dashboard's task state. */
  class DashboardState {
    var goals: seq<Goal>
    var todaysTasks: seq<Task>
    var hasShownConfetti: bool

    /** The guard is set only while every task is complete. */
    ghost predicate GuardConsistent()
      reads this
    {
      hasShownConfetti ==> AllCompleted(todaysTasks)
    }

    constructor ()
      ensures goals == [] && todaysTasks == [] && !hasShownConfetti
      ensures GuardConsistent()
    {
      goals, todaysTasks, hasShownConfetti := [], [], false;
    }

    /** loadUserData: the goals and tasks the store returned, or empty lists when it returned none. */
    method LoadUserData(goalsData: Option<seq<Goal>>, tasksData: Option<seq<Task>>)
      modifies this`goals, this`todaysTasks
      ensures goals == goalsData.GetOr([]) && todaysTasks == tasksData.GetOr([])
    {
      goals := goalsData.GetOr([]);
      todaysTasks := tasksData.GetOr([]);
    }

    /**
     * toggleTask: flips `completed` on the tasks with that id, fires the
     * celebration on the step into "all complete" when the guard is unset and
     * sets the guard, and clears the guard when the list is not all complete.
     */
    method ToggleTask(taskId: int) returns (celebrate: bool)
      modifies this`todaysTasks, this`hasShownConfetti
      ensures todaysTasks == Toggle(old(todaysTasks), taskId)
      ensures celebrate == ShouldCelebrate(old(todaysTasks), todaysTasks, old(hasShownConfetti))
      ensures hasShownConfetti == NextShown(old(todaysTasks), todaysTasks, old(hasShownConfetti))
      ensures GuardConsistent()
      ensures old(GuardConsistent()) ==> (celebrate <==> !AllCompleted(old(todaysTasks)) && AllCompleted(todaysTasks))
    {
      var tasks := todaysTasks;
      var newTasks := Toggle(tasks, taskId);
      var allCompleted := AllCompleted(newTasks);
      var wasNotComplete := CompletedCount(tasks) < |tasks|;
      celebrate := false;
      if allCompleted && wasNotComplete && !hasShownConfetti {
        hasShownConfetti := true;
        celebrate := true;
      } else if !allCompleted && hasShownConfetti {
        hasShownConfetti := false;
      }
      todaysTasks := newTasks;
      GuardFollowsAggregate(tasks, newTasks, old(hasShownConfetti));
      if old(GuardConsistent()) {
        CelebratesExactlyOnEntry(tasks, newTasks, old(hasShownConfetti));
      }
    }

    /** The progress shown on the dashboard. */
    function Progress(): (p: int)
      reads this
      ensures 0 <= p <= 100
      ensures todaysTasks == [] ==> p == 0
    {
      ProgressBounds(todaysTasks);
      ProgressPercent(todaysTasks)
    }
  }
}
