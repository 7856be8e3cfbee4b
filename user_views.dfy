/**
 * The per-user report (users/views.py): four counts over all current
 * tasks. It reads the task table and changes nothing.
 */
module UserViews {
  import opened Wrappers
  import opened Models
  import TaskViews

  /** The four counts the report answers with; `assignedTasks` is the `assigned` key. */
  datatype Report = Report(created: nat, assignedTasks: nat, completed: nat, incompleted: nat)

  predicate IsAssignee(t: Task, u: UserId) {
    t.assignee == Some(u)
  }

  /** The tasks the user reported. */
  function CreatedCount(tasks: seq<Task>, u: UserId): (n: nat)
    ensures n <= |tasks|
    ensures n == 0 <==> forall i :: 0 <= i < |tasks| ==> tasks[i].reporter != u
  {
    if tasks == [] then 0
    else CreatedCount(tasks[..|tasks| - 1], u) + (if tasks[|tasks| - 1].reporter == u then 1 else 0)
  }

  /** The tasks assigned to the user. */
  function AssignedCount(tasks: seq<Task>, u: UserId): (n: nat)
    ensures n <= |tasks|
    ensures n == 0 <==> forall i :: 0 <= i < |tasks| ==> !IsAssignee(tasks[i], u)
  {
    if tasks == [] then 0
    else AssignedCount(tasks[..|tasks| - 1], u) + (if IsAssignee(tasks[|tasks| - 1], u) then 1 else 0)
  }

  /** The tasks assigned to the user whose status is DONE. */
  function CompletedCount(tasks: seq<Task>, u: UserId): (n: nat)
    ensures n <= |tasks|
    ensures n == 0 <==> forall i :: 0 <= i < |tasks| ==> !(IsAssignee(tasks[i], u) && tasks[i].status == Done)
  {
    if tasks == [] then 0
    else
      var t := tasks[|tasks| - 1];
      CompletedCount(tasks[..|tasks| - 1], u) + (if IsAssignee(t, u) && t.status == Done then 1 else 0)
  }

  /** The tasks assigned to the user whose status is TODO or IN_PROGRESS. */
  function IncompletedCount(tasks: seq<Task>, u: UserId): (n: nat)
    ensures n <= |tasks|
    ensures n == 0 <==> forall i :: 0 <= i < |tasks| ==>
                          !(IsAssignee(tasks[i], u) && (tasks[i].status == Todo || tasks[i].status == InProgress))
  {
    if tasks == [] then 0
    else
      var t := tasks[|tasks| - 1];
      IncompletedCount(tasks[..|tasks| - 1], u)
        + (if IsAssignee(t, u) && (t.status == Todo || t.status == InProgress) then 1 else 0)
  }

  /** Every task assigned to a user is either completed or not, since a status is one of three values. */
  lemma {:induction false} CompletedPlusIncompleted(tasks: seq<Task>, u: UserId)
    ensures CompletedCount(tasks, u) + IncompletedCount(tasks, u) == AssignedCount(tasks, u)
  {
    if tasks != [] {
      CompletedPlusIncompleted(tasks[..|tasks| - 1], u);
    }
  }

  /** The report of a user over the task table. */
  function UserReport(tasks: seq<Task>, u: UserId): (r: Report)
    ensures r.completed + r.incompleted == r.assignedTasks
    ensures r.created <= |tasks| && r.assignedTasks <= |tasks|
    ensures r.created == CreatedCount(tasks, u) && r.assignedTasks == AssignedCount(tasks, u)
    ensures r.completed == CompletedCount(tasks, u) && r.incompleted == IncompletedCount(tasks, u)
  {
    CompletedPlusIncompleted(tasks, u);
    Report(CreatedCount(tasks, u), AssignedCount(tasks, u), CompletedCount(tasks, u), IncompletedCount(tasks, u))
  }

  /** All four counts are zero exactly when the user neither reported nor is assigned any task. */
  lemma NoTasksNoCounts(tasks: seq<Task>, u: UserId)
    ensures UserReport(tasks, u) == Report(0, 0, 0, 0) <==>
              forall i :: 0 <= i < |tasks| ==> tasks[i].reporter != u && tasks[i].assignee != Some(u)
  {
    if forall i :: 0 <= i < |tasks| ==> tasks[i].reporter != u && tasks[i].assignee != Some(u) {
      assert CompletedCount(tasks, u) == 0;
      assert IncompletedCount(tasks, u) == 0;
    }
  }

  /** Counting over two stretches of the table adds up. */
  lemma {:induction false} ReportAppend(a: seq<Task>, b: seq<Task>, u: UserId)
    ensures CreatedCount(a + b, u) == CreatedCount(a, u) + CreatedCount(b, u)
    ensures AssignedCount(a + b, u) == AssignedCount(a, u) + AssignedCount(b, u)
    ensures CompletedCount(a + b, u) == CompletedCount(a, u) + CompletedCount(b, u)
    ensures IncompletedCount(a + b, u) == IncompletedCount(a, u) + IncompletedCount(b, u)
    decreases |b|
  {
    if b == [] {
      assert a + b == a;
    } else {
      var front := b[..|b| - 1];
      ReportAppend(a, front, u);
      assert (a + b)[..|a + b| - 1] == a + front;
      assert (a + b)[|a + b| - 1] == b[|b| - 1];
    }
  }

  /**
   * Two tasks assigned to `me` (one IN_PROGRESS reported by someone else,
   * one DONE reported by a third user) and one task `me` reported give
   * one created, two assigned, one completed and one incompleted.
   */
  lemma MixedReport(me: UserId, harry: UserId, draco: UserId, category: CategoryId)
    requires me != harry && me != draco
    ensures var t1 := Task(1, "Some task", "", category, Medium, InProgress, harry, Some(me));
            var t2 := Task(2, "Some task", "", category, Medium, Done, draco, Some(me));
            var t3 := Task(3, "Some task", "", category, Medium, Todo, me, None);
            UserReport([t1, t2, t3], me) == Report(1, 2, 1, 1)
  {
    var t1 := Task(1, "Some task", "", category, Medium, InProgress, harry, Some(me));
    var t2 := Task(2, "Some task", "", category, Medium, Done, draco, Some(me));
    var t3 := Task(3, "Some task", "", category, Medium, Todo, me, None);
    assert [t1][..0] == [];
    assert UserReport([t1], me) == Report(0, 1, 0, 1);
    assert [t1, t2][..1] == [t1];
    assert UserReport([t1, t2], me) == Report(0, 2, 1, 1);
    assert [t1, t2, t3][..2] == [t1, t2];
  }

  /**
   * The report endpoint: the counts over the current task table, for the
   * acting user. The store is not modified.
   */
  method Get(store: TaskViews.TaskStore, actor: UserId) returns (r: Report)
    requires store.Valid()
    ensures r == UserReport(store.Listing(), actor)
    ensures r.completed + r.incompleted == r.assignedTasks
    ensures r == Report(0, 0, 0, 0) <==>
              forall i :: 0 <= i < |store.Listing()| ==>
                store.Listing()[i].reporter != actor && store.Listing()[i].assignee != Some(actor)
  {
    var tasks := store.List();
    r := UserReport(tasks, actor);
    NoTasksNoCounts(tasks, actor);
  }
}
