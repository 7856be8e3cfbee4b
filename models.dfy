/**
 * The stored records of the task tracker: tasks, categories and the event
 * log, with their field bounds, defaults, string forms, ordering and the
 * rules for what a deletion does to the rows that refer to the deleted one
 * (tasks/models.py and the enumerations it imports).
 */
module Models {
  import opened Wrappers

  type TaskId = int
  type UserId = int
  type CategoryId = int

  const NameMaxLength: nat := 300
  const DescriptionMaxLength: nat := 2000
  /** Length of the name prefix that a task or a category prints as. */
  const StrLength: nat := 20

  datatype Priority = Low | Medium | High
  datatype Status = Todo | InProgress | Done
  datatype Event = Created | Edited | Assigned | StatusChanged

  /** The stored integer of a status: TODO 1, IN_PROGRESS 2, DONE 3. */
  function StatusCode(s: Status): (c: int)
    ensures 1 <= c <= 3
    ensures StatusFromCode(c) == Some(s)
  {
    match s
    case Todo => 1
    case InProgress => 2
    case Done => 3
  }

  /** The status a stored integer stands for; only 1, 2 and 3 are choices. */
  function StatusFromCode(c: int): (r: Option<Status>)
    ensures r.Some? <==> 1 <= c <= 3
  {
    if c == 1 then Some(Todo)
    else if c == 2 then Some(InProgress)
    else if c == 3 then Some(Done)
    else None
  }

  /** The stored integer of a priority: LOW 1, MEDIUM 2, HIGH 3. */
  function PriorityCode(p: Priority): (c: int)
    ensures 1 <= c <= 3
    ensures PriorityFromCode(c) == Some(p)
  {
    match p
    case Low => 1
    case Medium => 2
    case High => 3
  }

  function PriorityFromCode(c: int): (r: Option<Priority>)
    ensures r.Some? <==> 1 <= c <= 3
  {
    if c == 1 then Some(Low)
    else if c == 2 then Some(Medium)
    else if c == 3 then Some(High)
    else None
  }

  /** A task row; `assignee == None` is an unassigned task. */
  datatype Task = Task(
    id: TaskId,
    name: string,
    description: string,
    category: CategoryId,
    priority: Priority,
    status: Status,
    reporter: UserId,
    assignee: Option<UserId>)

  /** The column bounds of a task: a required name of at most 300 characters, a description of at most 2000. */
  predicate ValidTask(t: Task) {
    0 < |t.name| <= NameMaxLength && |t.description| <= DescriptionMaxLength
  }

  /**
   * A freshly built task: the fields the client did not give take the
   * column defaults (an empty description, priority MEDIUM), and a new task
   * is always TODO and unassigned.
   */
  function NewTask(id: TaskId, name: string, description: Option<string>, category: CategoryId,
                   priority: Option<Priority>, reporter: UserId): (t: Task)
    ensures t.id == id && t.name == name && t.category == category && t.reporter == reporter
    ensures t.status == Todo && t.assignee == None
    ensures t.description == (if description.Some? then description.value else [])
    ensures t.priority == (if priority.Some? then priority.value else Medium)
  {
    Task(id, name, description.GetOr([]), category, priority.GetOr(Medium), Todo, reporter, None)
  }

  /** Python's `text[:n]`. */
  function Truncate(text: string, n: nat): (r: string)
    ensures |r| == if |text| < n then |text| else n
    ensures r <= text
  {
    if |text| <= n then text else text[..n]
  }

  /** `str(task)`: the first 20 characters of the name. */
  function TaskStr(t: Task): (s: string)
    ensures |s| == if |t.name| < StrLength then |t.name| else StrLength
    ensures s <= t.name
    ensures |t.name| <= StrLength ==> s == t.name
  {
    Truncate(t.name, StrLength)
  }

  datatype Category = Category(id: CategoryId, name: string, description: string)

  /** `str(category)`: the first 20 characters of the name. */
  function CategoryStr(c: Category): (s: string)
    ensures |s| == if |c.name| < StrLength then |c.name| else StrLength
    ensures s <= c.name
    ensures |c.name| <= StrLength ==> s == c.name
  {
    Truncate(c.name, StrLength)
  }

  /**
   * The human-readable description of a log entry. The texts of the
   * ASSIGNED and STATUS_CHANGED entries depend on how users and serializer
   * data print, so only what they mention is kept.
   */
  datatype Note = Text(text: string) | AssignedTo(target: Option<UserId>) | StatusChangedTo(status: Status)

  const CreatedNote := Text("Task created.")
  const EditedNote := Text("Task edited.")

  /** One row of the event log: which task, which acting user, which event. */
  datatype LogEntry = LogEntry(task: TaskId, user: UserId, event: Event, note: Note)

  /** The entries of one task, in log order. */
  function EntriesFor(log: seq<LogEntry>, id: TaskId): (r: seq<LogEntry>)
    ensures |r| <= |log|
    ensures forall e :: e in r <==> e in log && e.task == id
  {
    if log == [] then []
    else EntriesFor(log[..|log| - 1], id) + (if log[|log| - 1].task == id then [log[|log| - 1]] else [])
  }

  /** The log without the entries of one task (the cascade of a task deletion). */
  function WithoutTask(log: seq<LogEntry>, id: TaskId): (r: seq<LogEntry>)
    ensures |r| <= |log|
    ensures forall e :: e in r <==> e in log && e.task != id
  {
    if log == [] then []
    else WithoutTask(log[..|log| - 1], id) + (if log[|log| - 1].task != id then [log[|log| - 1]] else [])
  }

  /** The log without the entries a user triggered (the cascade of a user deletion). */
  function WithoutActor(log: seq<LogEntry>, user: UserId): (r: seq<LogEntry>)
    ensures |r| <= |log|
    ensures forall e :: e in r <==> e in log && e.user != user
  {
    if log == [] then []
    else WithoutActor(log[..|log| - 1], user) + (if log[|log| - 1].user != user then [log[|log| - 1]] else [])
  }

  /** Appending an entry adds it to its own task's entries and to no other task's. */
  lemma EntriesForAppend(log: seq<LogEntry>, e: LogEntry, id: TaskId)
    ensures EntriesFor(log + [e], id) == EntriesFor(log, id) + (if e.task == id then [e] else [])
  {
    assert (log + [e])[..|log|] == log;
  }

  /** Appending an entry keeps it after a user deletion exactly when another user triggered it. */
  lemma WithoutActorAppend(log: seq<LogEntry>, e: LogEntry, user: UserId)
    ensures WithoutActor(log + [e], user) == WithoutActor(log, user) + (if e.user != user then [e] else [])
  {
    assert (log + [e])[..|log|] == log;
  }

  /**
   * After a user deletion, every task's entries are its former entries,
   * in their order and with repeats kept, less exactly those the user
   * triggered.
   */
  lemma {:induction false} WithoutActorPerTask(log: seq<LogEntry>, user: UserId, id: TaskId)
    ensures EntriesFor(WithoutActor(log, user), id) == WithoutActor(EntriesFor(log, id), user)
  {
    if log != [] {
      var front, last := log[..|log| - 1], log[|log| - 1];
      WithoutActorPerTask(front, user, id);
      var kept := WithoutActor(front, user);
      assert WithoutActor(log, user) == kept + (if last.user != user then [last] else []);
      assert EntriesFor(log, id) == EntriesFor(front, id) + (if last.task == id then [last] else []);
      if last.user != user {
        EntriesForAppend(kept, last, id);
      } else {
        assert kept + [] == kept;
      }
      if last.task == id {
        WithoutActorAppend(EntriesFor(front, id), last, user);
      } else {
        assert EntriesFor(front, id) + [] == EntriesFor(front, id);
      }
    }
  }

  /** Removing one task's entries leaves every other task's entries as they were. */
  lemma {:induction false} WithoutTaskKeepsOthers(log: seq<LogEntry>, gone: TaskId, id: TaskId)
    requires id != gone
    ensures EntriesFor(WithoutTask(log, gone), id) == EntriesFor(log, id)
  {
    if log != [] {
      var front, last := log[..|log| - 1], log[|log| - 1];
      WithoutTaskKeepsOthers(front, gone, id);
      assert EntriesFor(log, id) == EntriesFor(front, id) + (if last.task == id then [last] else []);
      if last.task != gone {
        assert WithoutTask(log, gone) == WithoutTask(front, gone) + [last];
        EntriesForAppend(WithoutTask(front, gone), last, id);
      } else {
        assert WithoutTask(log, gone) == WithoutTask(front, gone);
      }
    }
  }

  /** A log in which no entry belongs to `id` has no entries for it. */
  lemma NoEntries(log: seq<LogEntry>, id: TaskId)
    requires forall e :: e in log ==> e.task != id
    ensures EntriesFor(log, id) == []
  {
  }

  /**
   * Deleting a task (on_delete=CASCADE from the log to the task): the task
   * row goes, all of its log entries go with it, every other task's entries
   * stay as they were, and nothing new is logged.
   */
  function DeleteTask(tasks: map<TaskId, Task>, log: seq<LogEntry>, id: TaskId)
    : (r: (map<TaskId, Task>, seq<LogEntry>))
    ensures r.0.Keys == tasks.Keys - {id}
    ensures forall k :: k in r.0 ==> r.0[k] == tasks[k]
    ensures forall e :: e in r.1 <==> e in log && e.task != id
    ensures EntriesFor(r.1, id) == []
    ensures forall other :: other != id ==> EntriesFor(r.1, other) == EntriesFor(log, other)
  {
    NoEntries(WithoutTask(log, id), id);
    CascadeKeepsOthers(log, id);
    (tasks - {id}, WithoutTask(log, id))
  }

  lemma CascadeKeepsOthers(log: seq<LogEntry>, gone: TaskId)
    ensures forall other :: other != gone ==> EntriesFor(WithoutTask(log, gone), other) == EntriesFor(log, other)
  {
    forall other | other != gone
      ensures EntriesFor(WithoutTask(log, gone), other) == EntriesFor(log, other)
    {
      WithoutTaskKeepsOthers(log, gone, other);
    }
  }

  /** The tasks that would block deleting category `c` (on_delete=PROTECT). */
  function TasksInCategory(tasks: map<TaskId, Task>, c: CategoryId): set<TaskId> {
    set id | id in tasks && tasks[id].category == c
  }

  /**
   * Deleting a category fails, naming the referring tasks, while any task
   * is in it; otherwise only that category goes.
   */
  function DeleteCategory(categories: map<CategoryId, Category>, tasks: map<TaskId, Task>, c: CategoryId)
    : (r: Result<map<CategoryId, Category>, set<TaskId>>)
    ensures r.Failure? <==> exists id :: id in tasks && tasks[id].category == c
    ensures r.Failure? ==> forall id :: id in r.error <==> id in tasks && tasks[id].category == c
    ensures r.Success? ==> r.value.Keys == categories.Keys - {c}
    ensures r.Success? ==> forall k :: k in r.value ==> r.value[k] == categories[k]
  {
    if exists id :: id in tasks && tasks[id].category == c then
      Failure(TasksInCategory(tasks, c))
    else
      Success(categories - {c})
  }

  /** The tasks that would block deleting user `u`: those it reported or is assigned to. */
  function TasksOfUser(tasks: map<TaskId, Task>, u: UserId): set<TaskId> {
    set id | id in tasks && (tasks[id].reporter == u || tasks[id].assignee == Some(u))
  }

  /**
   * Deleting a user fails while any task names it as reporter or assignee
   * (both PROTECT); otherwise the user goes and so do the log entries it
   * triggered (the log's user reference is CASCADE).
   */
  function DeleteUser(users: set<UserId>, tasks: map<TaskId, Task>, log: seq<LogEntry>, u: UserId)
    : (r: Result<(set<UserId>, seq<LogEntry>), set<TaskId>>)
    ensures r.Failure? <==> exists id :: id in tasks && (tasks[id].reporter == u || tasks[id].assignee == Some(u))
    ensures r.Failure? ==> forall id :: id in r.error <==> id in tasks && (tasks[id].reporter == u || tasks[id].assignee == Some(u))
    ensures r.Success? ==> r.value.0 == users - {u}
    ensures r.Success? ==> forall e :: e in r.value.1 <==> e in log && e.user != u
    ensures r.Success? ==> forall id :: EntriesFor(r.value.1, id) == WithoutActor(EntriesFor(log, id), u)
  {
    forall id
      ensures EntriesFor(WithoutActor(log, u), id) == WithoutActor(EntriesFor(log, id), u)
    {
      WithoutActorPerTask(log, u, id);
    }
    if exists id :: id in tasks && (tasks[id].reporter == u || tasks[id].assignee == Some(u)) then
      Failure(TasksOfUser(tasks, u))
    else
      Success((users - {u}, WithoutActor(log, u)))
  }

  /**
   * All tasks with an id below `hi`, in ascending id order. Ids are handed
   * out in creation order and never reused, so this is the `created_on`
   * ordering of the task table.
   */
  function ByCreation(tasks: map<TaskId, Task>, hi: TaskId): (r: seq<Task>)
    ensures |r| <= if hi <= 1 then 0 else hi - 1
    ensures forall t :: t in r ==> t in tasks.Values
    ensures forall k :: 1 <= k < hi && k in tasks ==> tasks[k] in r
    decreases hi
  {
    if hi <= 1 then []
    else ByCreation(tasks, hi - 1) + (if hi - 1 in tasks then [tasks[hi - 1]] else [])
  }

  /** A task map whose keys are the ids stored in the rows, all positive. */
  predicate KeyedById(tasks: map<TaskId, Task>) {
    forall k :: k in tasks ==> 1 <= k && tasks[k].id == k
  }

  /**
   * The listing holds each stored task below `hi` exactly once, and in
   * strictly ascending id (so creation) order.
   */
  lemma {:induction false} ByCreationOrdered(tasks: map<TaskId, Task>, hi: TaskId)
    requires KeyedById(tasks)
    ensures forall i, j :: 0 <= i < j < |ByCreation(tasks, hi)| ==> ByCreation(tasks, hi)[i].id < ByCreation(tasks, hi)[j].id
    ensures forall t :: t in ByCreation(tasks, hi) <==> t.id < hi && t.id in tasks && tasks[t.id] == t
    decreases hi
  {
    if hi > 1 {
      ByCreationOrdered(tasks, hi - 1);
    }
  }
}
