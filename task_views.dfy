/**
 * The task lifecycle (tasks/views.py): a store of task rows and the
 * append-only event log, with the request handlers that create, show,
 * edit, delete, assign and re-status a task and list a task's events.
 *
 * Every handler is given the acting user that authentication resolved; a
 * task id that names no task is a 404 before anything else is looked at.
 * Every change except a deletion appends exactly one log entry. A refused
 * request, and an assign or status request that names the current value,
 * leave the store untouched; an edit that changes no value, and a status
 * request without a status, still save the task and log.
 */
module TaskViews {
  import opened Wrappers
  import opened PyText
  import opened Models
  import opened Serializers

  /** What a handler answers, by HTTP status. */
  datatype Response =
    | CreatedTask(data: TaskData)     // 201 with the new task
    | Ok(data: TaskData)              // 200 with the task
    | Removed(id: TaskId)             // 200 with the deleted id
    | NoContent                       // 204: the request would change nothing
    | BadRequest(errors: Errors)      // 400 with field errors
    | NotFound                        // 404

  /** The user an assign request names: a real user or nobody, or no such user. */
  datatype Lookup = Resolved(target: Option<UserId>) | NoSuchUser

  /**
   * Resolving the `user` value of an assign request. The lookup by primary
   * key converts the value with `int()`; only that conversion failing (an
   * empty or non-numeric text) means "unassign". A missing or null value is
   * looked up as a null key and matches no user, and a well-formed id must
   * name an existing user.
   */
  function ResolveUser(raw: Raw, users: set<UserId>): (r: Lookup)
    ensures r.Resolved? && r.target.Some? ==> r.target.value in users
    ensures raw.Given? && ParseInt(raw.text).None? ==> r == Resolved(None)
    ensures raw.Given? && Strip(raw.text) == [] ==> r == Resolved(None)
    ensures raw.Absent? || raw.Null? ==> r == NoSuchUser
    ensures raw.Given? && ParseInt(raw.text).Some? ==>
              r == (if ParseInt(raw.text).value in users then Resolved(ParseInt(raw.text)) else NoSuchUser)
  {
    match raw
    case Given(text) =>
      (match ParseInt(text)
       case None => Resolved(None)
       case Some(id) => if id in users then Resolved(Some(id)) else NoSuchUser)
    case _ => NoSuchUser
  }

  /** A user id sent as its decimal text resolves to that user, or to 404 when there is none. */
  lemma ResolveDecimal(u: nat, users: set<UserId>)
    ensures ResolveUser(Given(Decimal(u)), users) == if u in users then Resolved(Some(u)) else NoSuchUser
  {
    ParseDecimal(u);
  }

  /** The entries of a task begin with its creation, logged by its reporter. */
  ghost predicate OpenedBy(entries: seq<LogEntry>, t: Task) {
    entries != [] && entries[0] == LogEntry(t.id, t.reporter, Created, CreatedNote)
  }

  /** A task within its column bounds whose category, reporter and assignee exist. */
  predicate Consistent(t: Task, categories: set<CategoryId>, users: set<UserId>) {
    && ValidTask(t)
    && t.category in categories
    && t.reporter in users
    && (t.assignee.Some? ==> t.assignee.value in users)
  }

  /** Every task row is consistent, keyed by its own id, and has an id below the next one. */
  ghost predicate RowsHold(tasks: map<TaskId, Task>, nextId: TaskId,
                           categories: set<CategoryId>, users: set<UserId>) {
    && 1 <= nextId
    && KeyedById(tasks)
    && (forall id :: id in tasks ==> id < nextId && Consistent(tasks[id], categories, users))
  }

  /** No log entry outlives its task. */
  ghost predicate LogRefersToRows(tasks: map<TaskId, Task>, log: seq<LogEntry>) {
    forall e :: e in log ==> e.task in tasks
  }

  /** The entries of every task start with its creation by its reporter. */
  ghost predicate LogsOpened(tasks: map<TaskId, Task>, log: seq<LogEntry>) {
    forall id {:trigger EntriesFor(log, id)} :: id in tasks ==> OpenedBy(EntriesFor(log, id), tasks[id])
  }

  /** What the store keeps true. */
  ghost predicate StoreInvariant(tasks: map<TaskId, Task>, log: seq<LogEntry>, nextId: TaskId,
                                 categories: set<CategoryId>, users: set<UserId>) {
    RowsHold(tasks, nextId, categories, users) && LogRefersToRows(tasks, log) && LogsOpened(tasks, log)
  }

  /** No entry refers to the id the next task gets. */
  lemma FreshIdHasNoEntries(tasks: map<TaskId, Task>, log: seq<LogEntry>, nextId: TaskId,
                            categories: set<CategoryId>, users: set<UserId>)
    requires RowsHold(tasks, nextId, categories, users) && LogRefersToRows(tasks, log)
    ensures nextId !in tasks
    ensures EntriesFor(log, nextId) == []
  {
    forall x | x in log
      ensures x.task != nextId
    {
      assert x.task in tasks;
    }
    NoEntries(log, nextId);
  }

  /** A stored task is keyed by its own id and consistent. */
  lemma StoredTask(tasks: map<TaskId, Task>, log: seq<LogEntry>, nextId: TaskId,
                   categories: set<CategoryId>, users: set<UserId>, id: TaskId)
    requires StoreInvariant(tasks, log, nextId, categories, users)
    requires id in tasks
    ensures tasks[id].id == id && Consistent(tasks[id], categories, users)
  {
  }

  /** A new task whose CREATED entry is logged is opened by it, and every other task stays opened. */
  lemma OpenedAfterAdd(tasks: map<TaskId, Task>, log: seq<LogEntry>, t: Task)
    requires LogsOpened(tasks, log)
    requires EntriesFor(log, t.id) == []
    ensures LogsOpened(tasks[t.id := t], log + [LogEntry(t.id, t.reporter, Created, CreatedNote)])
    ensures EntriesFor(log + [LogEntry(t.id, t.reporter, Created, CreatedNote)], t.id)
            == [LogEntry(t.id, t.reporter, Created, CreatedNote)]
  {
    var e := LogEntry(t.id, t.reporter, Created, CreatedNote);
    var after := tasks[t.id := t];
    forall id | id in after
      ensures OpenedBy(EntriesFor(log + [e], id), after[id])
    {
      EntriesForAppend(log, e, id);
    }
    EntriesForAppend(log, e, t.id);
  }

  /** Appending any entry of a stored task keeps every task opened, the saved one included. */
  lemma OpenedAfterReplace(tasks: map<TaskId, Task>, log: seq<LogEntry>, t: Task, e: LogEntry)
    requires LogsOpened(tasks, log)
    requires t.id in tasks && tasks[t.id].id == t.id && tasks[t.id].reporter == t.reporter
    requires e.task == t.id
    ensures LogsOpened(tasks[t.id := t], log + [e])
  {
    var after := tasks[t.id := t];
    forall id | id in after
      ensures OpenedBy(EntriesFor(log + [e], id), after[id])
    {
      EntriesForAppend(log, e, id);
    }
  }

  /** Adding a task under the next id together with its CREATED entry keeps the invariant. */
  lemma AddKeepsInvariant(tasks: map<TaskId, Task>, log: seq<LogEntry>, nextId: TaskId,
                          categories: set<CategoryId>, users: set<UserId>, t: Task)
    requires StoreInvariant(tasks, log, nextId, categories, users)
    requires t.id == nextId && Consistent(t, categories, users)
    ensures t.id !in tasks
    ensures StoreInvariant(tasks[nextId := t], log + [LogEntry(t.id, t.reporter, Created, CreatedNote)],
                           nextId + 1, categories, users)
    ensures EntriesFor(log + [LogEntry(t.id, t.reporter, Created, CreatedNote)], t.id)
            == [LogEntry(t.id, t.reporter, Created, CreatedNote)]
  {
    FreshIdHasNoEntries(tasks, log, nextId, categories, users);
    OpenedAfterAdd(tasks, log, t);
    RowsAfterAdd(tasks, nextId, categories, users, t);
    RefersAfterAdd(tasks, log, t, LogEntry(t.id, t.reporter, Created, CreatedNote));
  }

  /** A consistent row under the next id keeps the rows consistent, with the next id one higher. */
  lemma RowsAfterAdd(tasks: map<TaskId, Task>, nextId: TaskId,
                     categories: set<CategoryId>, users: set<UserId>, t: Task)
    requires RowsHold(tasks, nextId, categories, users)
    requires t.id == nextId && Consistent(t, categories, users)
    ensures RowsHold(tasks[nextId := t], nextId + 1, categories, users)
  {
    var after := tasks[nextId := t];
    forall k | k in after
      ensures 1 <= k && after[k].id == k && k < nextId + 1 && Consistent(after[k], categories, users)
    {
      if k != nextId {
        assert after[k] == tasks[k];
      }
    }
  }

  /** An entry for a task being added refers to a row, and so do all earlier ones. */
  lemma RefersAfterAdd(tasks: map<TaskId, Task>, log: seq<LogEntry>, t: Task, e: LogEntry)
    requires LogRefersToRows(tasks, log)
    requires e.task == t.id
    ensures LogRefersToRows(tasks[t.id := t], log + [e])
  {
    forall x | x in log + [e]
      ensures x.task in tasks[t.id := t]
    {
      if x in log {
        assert x.task in tasks;
      }
    }
  }

  /**
   * Replacing a task by a consistent version with the same id and reporter,
   * and logging one entry for it, keeps the invariant.
   */
  lemma ReplaceKeepsInvariant(tasks: map<TaskId, Task>, log: seq<LogEntry>, nextId: TaskId,
                              categories: set<CategoryId>, users: set<UserId>, t: Task, e: LogEntry)
    requires StoreInvariant(tasks, log, nextId, categories, users)
    requires t.id in tasks && t.reporter == tasks[t.id].reporter && Consistent(t, categories, users)
    requires e.task == t.id
    ensures StoreInvariant(tasks[t.id := t], log + [e], nextId, categories, users)
  {
    OpenedAfterReplace(tasks, log, t, e);
  }

  /** Deleting a task with its entries keeps the invariant. */
  lemma DeleteKeepsInvariant(tasks: map<TaskId, Task>, log: seq<LogEntry>, nextId: TaskId,
                             categories: set<CategoryId>, users: set<UserId>, id: TaskId)
    requires StoreInvariant(tasks, log, nextId, categories, users)
    ensures var after := DeleteTask(tasks, log, id);
            StoreInvariant(after.0, after.1, nextId, categories, users)
  {
    var after := DeleteTask(tasks, log, id);
    forall k | k in after.0
      ensures 1 <= k && after.0[k].id == k && k < nextId && Consistent(after.0[k], categories, users)
      ensures OpenedBy(EntriesFor(after.1, k), after.0[k])
    {
      assert after.0[k] == tasks[k];
      assert EntriesFor(after.1, k) == EntriesFor(log, k);
    }
    forall x | x in after.1
      ensures x.task in after.0
    {
      assert x in log && x.task != id;
    }
  }

  class TaskStore {
    var tasks: map<TaskId, Task>
    /** The event log, oldest entry first. */
    var log: seq<LogEntry>
    /** The id the next created task gets; ids are never reused. */
    var nextId: TaskId
    /** The categories and users a task may refer to; they are managed elsewhere. */
    const categories: map<CategoryId, Category>
    const users: set<UserId>

    ghost predicate Valid()
      reads this
    {
      StoreInvariant(tasks, log, nextId, categories.Keys, users)
    }

    /** The task table in its `created_on` order. */
    ghost function Listing(): seq<Task>
      reads this
    {
      ByCreation(tasks, nextId)
    }

    constructor (categories: map<CategoryId, Category>, users: set<UserId>)
      ensures Valid()
      ensures this.categories == categories && this.users == users
      ensures tasks == map[] && log == [] && nextId == 1
    {
      this.categories := categories;
      this.users := users;
      tasks := map[];
      log := [];
      nextId := 1;
    }

    /** Storing a new task under the next id with its CREATED entry. */
    method Insert(t: Task)
      requires Valid() && t.id == nextId && Consistent(t, categories.Keys, users)
      modifies this
      ensures Valid()
      ensures t.id !in old(tasks)
      ensures tasks == old(tasks)[t.id := t]
      ensures log == old(log) + [LogEntry(t.id, t.reporter, Created, CreatedNote)]
      ensures nextId == old(nextId) + 1
      ensures EntriesFor(log, t.id) == [LogEntry(t.id, t.reporter, Created, CreatedNote)]
    {
      AddKeepsInvariant(tasks, log, nextId, categories.Keys, users, t);
      tasks := tasks[nextId := t];
      log := log + [LogEntry(nextId, t.reporter, Created, CreatedNote)];
      nextId := nextId + 1;
    }

    /** Saving a new version of a stored task, with the same reporter, and logging one entry for it. */
    method Save(t: Task, e: LogEntry)
      requires Valid()
      requires t.id in tasks && t.reporter == tasks[t.id].reporter && Consistent(t, categories.Keys, users)
      requires e.task == t.id
      modifies this
      ensures Valid()
      ensures tasks == old(tasks)[t.id := t] && log == old(log) + [e] && nextId == old(nextId)
    {
      ReplaceKeepsInvariant(tasks, log, nextId, categories.Keys, users, t, e);
      tasks := tasks[t.id := t];
      log := log + [e];
    }

    /**
     * Creating a task. The reporter is the acting user and the task starts
     * TODO and unassigned, whatever the body says about id, status, reporter
     * or assignee. A valid request appends one CREATED entry; an invalid one
     * changes nothing.
     */
    method Create(p: Payload, actor: UserId) returns (r: Response)
      requires Valid() && actor in users
      modifies this
      ensures Valid()
      ensures match ValidateTask(AllowList(p), false, categories.Keys)
        case Failure(errors) =>
          r == BadRequest(errors) && unchanged(this)
        case Success(c) =>
          var t := NewTask(old(nextId), c.name.value, c.description, c.category.value, c.priority, actor);
          && tasks == old(tasks)[old(nextId) := t]
          && log == old(log) + [LogEntry(old(nextId), actor, Created, CreatedNote)]
          && nextId == old(nextId) + 1
          && r == CreatedTask(Represent(t))
      ensures r.BadRequest? ==> r.errors.Keys <= WritableFields
      ensures r.CreatedTask? ==> (&& r.data.id !in old(tasks) && r.data.id in tasks
                                  && tasks[r.data.id].reporter == actor
                                  && tasks[r.data.id].status == Todo
                                  && tasks[r.data.id].assignee == None
                                  && EntriesFor(log, r.data.id) == [LogEntry(r.data.id, actor, Created, CreatedNote)])
    {
      var checked := ValidateTask(AllowList(p), false, categories.Keys);
      if checked.Failure? {
        return BadRequest(checked.error);
      }
      var c := checked.value;
      CreatedTaskIsValid(c, categories.Keys, nextId, actor);
      var t := NewTask(nextId, c.name.value, c.description, c.category.value, c.priority, actor);
      Insert(t);
      r := CreatedTask(Represent(t));
    }

    /** Showing one task. */
    method Detail(id: TaskId) returns (r: Response)
      requires Valid()
      ensures id !in tasks ==> r == NotFound
      ensures id in tasks ==> r.Ok? && Restore(r.data) == Some(tasks[id])
    {
      if id !in tasks {
        return NotFound;
      }
      r := Ok(Represent(tasks[id]));
    }

    /**
     * Editing a task: a partial update of name, description, category and
     * priority only. A valid request appends one EDITED entry even when no
     * value actually changes; an invalid one changes nothing.
     */
    method Update(id: TaskId, p: Payload, actor: UserId) returns (r: Response)
      requires Valid() && actor in users
      modifies this
      ensures Valid()
      ensures id !in old(tasks) ==> r == NotFound && unchanged(this)
      ensures id in old(tasks) ==> match ValidateTask(AllowList(p), true, categories.Keys)
        case Failure(errors) =>
          r == BadRequest(errors) && unchanged(this)
        case Success(c) =>
          var t := ApplyChanges(old(tasks)[id], c);
          && tasks == old(tasks)[id := t]
          && log == old(log) + [LogEntry(id, actor, Edited, EditedNote)]
          && nextId == old(nextId)
          && r == Ok(Represent(t))
      ensures r.Ok? ==> (&& tasks[id].status == old(tasks)[id].status
                         && tasks[id].reporter == old(tasks)[id].reporter
                         && tasks[id].assignee == old(tasks)[id].assignee)
    {
      if id !in tasks {
        return NotFound;
      }
      var checked := ValidateTask(AllowList(p), true, categories.Keys);
      if checked.Failure? {
        return BadRequest(checked.error);
      }
      StoredTask(tasks, log, nextId, categories.Keys, users, id);
      UpdatedTaskIsValid(tasks[id], checked.value, categories.Keys);
      var t := ApplyChanges(tasks[id], checked.value);
      var e := LogEntry(id, actor, Edited, EditedNote);
      Save(t, e);
      r := Ok(Represent(t));
    }

    /**
     * Deleting a task: the row and all of its log entries go, every other
     * task keeps its entries, and nothing is logged.
     */
    method Delete(id: TaskId) returns (r: Response)
      requires Valid()
      modifies this
      ensures Valid()
      ensures id !in old(tasks) ==> r == NotFound && unchanged(this)
      ensures id in old(tasks) ==> && r == Removed(id)
                                   && (tasks, log) == DeleteTask(old(tasks), old(log), id)
                                   && nextId == old(nextId)
      ensures id !in tasks && EntriesFor(log, id) == []
    {
      if id !in tasks {
        NoEntries(log, id);
        return NotFound;
      }
      DeleteKeepsInvariant(tasks, log, nextId, categories.Keys, users, id);
      var after := DeleteTask(tasks, log, id);
      tasks, log := after.0, after.1;
      r := Removed(id);
    }

    /**
     * Assigning a task. Naming the current assignee again (nobody included)
     * changes nothing and answers 204; naming someone else sets the
     * assignee and appends one ASSIGNED entry.
     */
    method Assign(id: TaskId, user: Raw, actor: UserId) returns (r: Response)
      requires Valid() && actor in users
      modifies this
      ensures Valid()
      ensures id !in old(tasks) ==> r == NotFound && unchanged(this)
      ensures id in old(tasks) ==> match ResolveUser(user, users)
        case NoSuchUser =>
          r == NotFound && unchanged(this)
        case Resolved(target) =>
          if target == old(tasks)[id].assignee then
            r == NoContent && unchanged(this)
          else
            var t := old(tasks)[id].(assignee := target);
            && tasks == old(tasks)[id := t]
            && log == old(log) + [LogEntry(id, actor, Assigned, AssignedTo(target))]
            && nextId == old(nextId)
            && r == Ok(Represent(t))
    {
      if id !in tasks {
        return NotFound;
      }
      var lookup := ResolveUser(user, users);
      if lookup.NoSuchUser? {
        return NotFound;
      }
      var current := tasks[id];
      if lookup.target == current.assignee {
        return NoContent;
      }
      var t := current.(assignee := lookup.target);
      var e := LogEntry(id, actor, Assigned, AssignedTo(lookup.target));
      StoredTask(tasks, log, nextId, categories.Keys, users, id);
      Save(t, e);
      r := Ok(Represent(t));
    }

    /**
     * Changing the status. Any of the three statuses may follow any other.
     * The current status again is a 204 with no change; a missing `status`
     * differs from the current one, so it saves the task unchanged and
     * still appends a STATUS_CHANGED entry.
     */
    method ChangeStatus(id: TaskId, p: Payload, actor: UserId) returns (r: Response)
      requires Valid() && actor in users
      modifies this
      ensures Valid()
      ensures id !in old(tasks) ==> r == NotFound && unchanged(this)
      ensures id in old(tasks) ==> match ValidateStatus(p.status)
        case Failure(errors) =>
          r == BadRequest(errors) && unchanged(this)
        case Success(status) =>
          if status == Some(old(tasks)[id].status) then
            r == NoContent && unchanged(this)
          else
            var t := old(tasks)[id].(status := status.GetOr(old(tasks)[id].status));
            && tasks == old(tasks)[id := t]
            && log == old(log) + [LogEntry(id, actor, StatusChanged, StatusChangedTo(t.status))]
            && nextId == old(nextId)
            && r == Ok(Represent(t))
    {
      if id !in tasks {
        return NotFound;
      }
      var checked := ValidateStatus(p.status);
      if checked.Failure? {
        return BadRequest(checked.error);
      }
      var current := tasks[id];
      if checked.value == Some(current.status) {
        return NoContent;
      }
      var t := current.(status := checked.value.GetOr(current.status));
      var e := LogEntry(id, actor, StatusChanged, StatusChangedTo(t.status));
      StoredTask(tasks, log, nextId, categories.Keys, users, id);
      Save(t, e);
      r := Ok(Represent(t));
    }

    /**
     * The event log of one task, oldest first (`None` is the 404). It is
     * never empty: it starts with the task's creation by its reporter.
     */
    method EventLog(id: TaskId) returns (r: Option<seq<LogEntry>>)
      requires Valid()
      ensures r.None? <==> id !in tasks
      ensures r.Some? ==> r.value == EntriesFor(log, id)
      ensures r.Some? ==> forall e :: e in r.value <==> e in log && e.task == id
      ensures r.Some? ==> r.value != [] && r.value[0] == LogEntry(id, tasks[id].reporter, Created, CreatedNote)
    {
      if id !in tasks {
        return None;
      }
      r := Some(EntriesFor(log, id));
    }

    /** All tasks, oldest first: each stored task exactly once, in ascending id order. */
    method List() returns (r: seq<Task>)
      requires Valid()
      ensures r == Listing()
      ensures forall i, j :: 0 <= i < j < |r| ==> r[i].id < r[j].id
      ensures forall t :: t in r <==> t.id in tasks && tasks[t.id] == t
    {
      r := [];
      var i := 1;
      while i < nextId
        invariant 1 <= i <= nextId
        invariant r == ByCreation(tasks, i)
      {
        if i in tasks {
          r := r + [tasks[i]];
        }
        i := i + 1;
      }
      ByCreationOrdered(tasks, nextId);
    }
  }

  /**
   * A create body with a name, a description, a category and priority
   * MEDIUM that also claims status DONE and `other` as reporter and
   * assignee.
   */
  function PrivilegedBody(name: string, description: string, category: nat, other: nat): Payload {
    Payload(Absent, Given(name), Given(description), Given(Decimal(category)),
            Given("2"), Given("3"), Given(Decimal(other)), Given(Decimal(other)))
  }

  /** A name and a description that pass their field checks unchanged. */
  predicate PlainTexts(name: string, description: string) {
    && name != [] && Trimmed(name) && |name| <= NameMaxLength
    && Trimmed(description) && |description| <= DescriptionMaxLength
  }

  /** That body passes validation whenever its category exists; the claims are not looked at. */
  lemma PrivilegedBodyValid(name: string, description: string, category: nat, other: nat,
                            categories: set<CategoryId>)
    requires PlainTexts(name, description) && category in categories
    ensures ValidateTask(AllowList(PrivilegedBody(name, description, category, other)), false, categories)
            == Success(Changes(Some(name), Some(description), Some(category), Some(Medium)))
  {
    var w := AllowList(PrivilegedBody(name, description, category, other));
    assert w == Writable(Given(name), Given(description), Given(Decimal(category)), Given("2"));
    ParseDecimal(category);
    assert Strip(name) == name && Strip(description) == description;
    assert CheckText(w.name, true, false, NameMaxLength) == Accept(name);
    assert CheckText(w.description, false, true, DescriptionMaxLength) == Accept(description);
    assert CheckCategory(w.category, true, categories) == Accept(category);
    assert PriorityChoice("2") == Some(Medium);
    var r := ValidateTask(w, false, categories);
    assert r.Success?;
  }

  /**
   * A create body that claims status DONE, another reporter and an
   * assignee yields a TODO task reported by the acting user and assigned
   * to nobody.
   */
  method CreateDropsPrivilegedFields(store: TaskStore, actor: UserId, name: string, description: string,
                                     category: nat, other: nat)
    returns (r: Response)
    requires store.Valid() && actor in store.users && category in store.categories
    requires PlainTexts(name, description)
    modifies store
    ensures store.Valid()
    ensures r.CreatedTask? && r.data.id in store.tasks
    ensures var t := store.tasks[r.data.id]; t.reporter == actor && t.status == Todo && t.assignee == None
  {
    PrivilegedBodyValid(name, description, category, other, store.categories.Keys);
    r := store.Create(PrivilegedBody(name, description, category, other), actor);
  }

  /**
   * Assigning a task to a user it is not assigned to sets the assignee and
   * logs once; the same request again answers 204 and logs nothing.
   */
  method AssignTwice(store: TaskStore, id: TaskId, user: nat, actor: UserId)
    returns (first: Response, second: Response)
    requires store.Valid() && actor in store.users && user in store.users
    requires id in store.tasks && store.tasks[id].assignee != Some(user)
    modifies store
    ensures store.Valid()
    ensures first.Ok? && second == NoContent
    ensures id in store.tasks && store.tasks[id].assignee == Some(user)
    ensures store.log == old(store.log) + [LogEntry(id, actor, Assigned, AssignedTo(Some(user)))]
  {
    ResolveDecimal(user, store.users);
    first := store.Assign(id, Given(Decimal(user)), actor);
    second := store.Assign(id, Given(Decimal(user)), actor);
  }

  /**
   * Any status may follow any other: asking for a different status sets it
   * and logs once, and asking for it again answers 204 and logs nothing.
   */
  method ChangeStatusTwice(store: TaskStore, id: TaskId, status: Status, actor: UserId)
    returns (first: Response, second: Response)
    requires store.Valid() && actor in store.users
    requires id in store.tasks && store.tasks[id].status != status
    modifies store
    ensures store.Valid()
    ensures first.Ok? && second == NoContent
    ensures id in store.tasks && store.tasks[id].status == status
    ensures store.log == old(store.log) + [LogEntry(id, actor, StatusChanged, StatusChangedTo(status))]
  {
    var body := Payload(Absent, Absent, Absent, Absent, Absent, Given(Decimal(StatusCode(status))), Absent, Absent);
    StatusChoiceOfCode(status);
    first := store.ChangeStatus(id, body, actor);
    second := store.ChangeStatus(id, body, actor);
  }

  /** A status request without `status` is not a no-op: it keeps the status and still logs. */
  method ChangeStatusWithoutStatus(store: TaskStore, id: TaskId, actor: UserId) returns (r: Response)
    requires store.Valid() && actor in store.users && id in store.tasks
    modifies store
    ensures store.Valid()
    ensures r.Ok? && id in store.tasks && store.tasks[id] == old(store.tasks[id])
    ensures store.log == old(store.log) + [LogEntry(id, actor, StatusChanged, StatusChangedTo(old(store.tasks[id].status)))]
  {
    r := store.ChangeStatus(id, Payload(Absent, Absent, Absent, Absent, Absent, Absent, Absent, Absent), actor);
  }
}
