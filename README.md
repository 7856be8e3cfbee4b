# taskr task lifecycle, in Dafny

This project models the core of taskr, a small task-tracking REST backend.

- **Task store.** Tasks, with a name, description, category, priority, status, reporter and assignee, live in a store with an append-only event log.
- **Handlers.** The request handlers create, show, edit, delete, assign and re-status a task, and list a task's events. Every change except a deletion appends exactly one log entry. A refused request changes nothing, and so does an assign or status request that names the current value. An edit that changes no value, and a status request without a status, still save the task and log an entry.
- **Per-user report.** It counts the tasks a user created, the tasks assigned to them, and how many of those are completed and incompleted.

Modules:

- `Wrappers` (wrappers.dfy): `Option` and `Result`.
- `PyText` (pytext.dfy): Python's `str.strip()` and `int(str)`, and `str(n)` for a natural number. These are the conversions the framework applies to client text.
- `Models` (models.dfy): the stored records and their rules (tasks/models.py):
  - column bounds and defaults;
  - the status and priority codes;
  - `__str__`;
  - the event log and its per-task view;
  - the cascade and protect rules of deletion;
  - creation ordering.
- `Serializers` (serializers.dfy): how a request body becomes changes (tasks/serializers.py):
  - a raw client value is `Absent`, `Null` or `Given(text)`;
  - the per-field checks;
  - the allow-list that drops read-only fields;
  - the status-only input;
  - the eight-field representation.
- `TaskViews` (task_views.dfy): class `TaskStore`.
  - It holds the task map, the log and the next id, and its `modifies` methods are the handlers of tasks/views.py.
  - Its invariant `StoreInvariant` is proved preserved by value-level lemmas. Every handler except `Delete` stores its change through `Insert` (a new row with its CREATED entry) or `Save` (a saved row with one entry). `Delete` replaces the task map and the log by what `DeleteTask` computes.
  - A few client methods replay concrete request sequences.
- `UserViews` (user_views.dfy): the four counts of users/views.py as recursive functions over the listing, and the report endpoint.

Ids come from a counter that only grows, so ascending id order is creation order. The store's listing and each task's event log are therefore in `created_on` order.

The enumerations module is not part of this model. The model assumes these codes:

- status: TODO 1, IN_PROGRESS 2, DONE 3 (the stale report in tasks/views.py filters on these integers);
- priority: LOW 1, MEDIUM 2, HIGH 3.

Assigning with a missing or null `user` answers 404: the lookup by primary key with a null key matches no user (tasks/views.py:164-170). Only a value that `int()` refuses unassigns, for example an empty string or a non-numeric text.

## Model

| member | source | states |
|---|---|---|
| PyText.Strip | taskr/tasks/models.py:19-30 | the result is the input with its leading and trailing whitespace removed: a slice starting after the leading whitespace, followed only by whitespace, itself starting and ending with non-whitespace; empty exactly when the input is all whitespace |
| PyText.ParseInt | taskr/tasks/views.py:164-170 | the key conversion refuses blank text and reads a plain digit string as its decimal value |
| PyText.ParseIntNumeral | taskr/tasks/views.py:164-170 | `int()` accepts a text exactly when, stripped, it is an optional sign followed by at least one digit, and reads it as that signed value |
| PyText.ParseIntIgnoresPadding | taskr/tasks/views.py:164-170 | whitespace around a numeral does not change what `int()` reads |
| PyText.ForeignCharRefused | taskr/tasks/views.py:164-170 | a text holding any character that is not a digit, whitespace or a sign is refused |
| PyText.Decimal | taskr/tasks/serializers.py:16-19 | `str(n)` of a natural number: "0" for zero, otherwise a digit string with no leading zero, whose decimal value is n (with DecimalValue) |
| PyText.ParseDecimal | taskr/tasks/views.py:164-170 | an id written in decimal converts back to the same id |
| Models.StatusCode | taskr/tasks/models.py:47-52 | every status is stored as a code in 1..3 that reads back to that status |
| Models.StatusFromCode | taskr/tasks/models.py:47-52 | exactly the codes 1, 2 and 3 are status choices |
| Models.PriorityCode | taskr/tasks/models.py:40-45 | every priority is stored as a code in 1..3 that reads back to that priority |
| Models.PriorityFromCode | taskr/tasks/models.py:40-45 | exactly the codes 1, 2 and 3 are priority choices |
| Models.NewTask | taskr/tasks/models.py:25-70 | a new task takes the given name, category and reporter, an empty description and priority MEDIUM unless given, and is TODO and unassigned |
| Models.Truncate | taskr/tasks/models.py:75-76 | a slice to `n` characters is a prefix of length min(length, n) |
| Models.TaskStr | taskr/tasks/models.py:75-76 | a task prints as the prefix of its name of length min(20, length of the name) |
| Models.CategoryStr | taskr/tasks/models.py:93-94 | a category prints as the prefix of its name of length min(20, length of the name) |
| Models.EntriesFor | taskr/tasks/views.py:251 | a task's entries are exactly the log entries that refer to it |
| Models.WithoutTask | taskr/tasks/models.py:101-107 | the cascade keeps exactly the entries of other tasks |
| Models.WithoutActor | taskr/tasks/models.py:109-115 | the cascade from a deleted user keeps exactly the entries other users triggered |
| Models.WithoutActorAppend | taskr/tasks/models.py:109-115 | an appended entry survives a user deletion exactly when another user triggered it, after the surviving older entries |
| Models.WithoutActorPerTask | taskr/tasks/models.py:109-115 | after a user deletion every task's entries are its former entries, in order and with repeats, less exactly those the user triggered |
| Models.EntriesForAppend | taskr/tasks/views.py:70-77 | a logged entry extends its own task's entries and no other's |
| Models.WithoutTaskKeepsOthers | taskr/tasks/models.py:101-107 | removing one task's entries leaves every other task's entries, in order, as they were |
| Models.NoEntries | taskr/tasks/models.py:101-107 | a log without entries for a task yields none for it |
| Models.CascadeKeepsOthers | taskr/tasks/models.py:101-107 | the cascade of one task keeps the entries of all others |
| Models.DeleteTask | taskr/tasks/models.py:101-107 | deleting a task removes its row and all of its entries, keeps every other row and every other task's entries, and logs nothing |
| Models.DeleteCategory | taskr/tasks/models.py:32-38 | deleting a category fails, naming exactly the tasks in it, iff any task is in it; otherwise only that category goes |
| Models.DeleteUser | taskr/tasks/models.py:54-70 | deleting a user fails, naming exactly the tasks it reports or is assigned, iff there is one; otherwise the user and exactly the entries it triggered go, and every task keeps its other entries in order |
| Models.ByCreation | taskr/tasks/models.py:72-73 | `Task.objects.all()` in `created_on` order: no longer than the ids below the bound, holding only stored tasks and every stored task below the bound |
| Models.ByCreationOrdered | taskr/tasks/models.py:72-73 | the listing holds every stored task exactly once, in strictly ascending id (creation) order |
| Serializers.AllowList | taskr/tasks/serializers.py:13 | the writable part of a body carries exactly its name, description, category and priority values |
| Serializers.ReadOnlyIgnored | taskr/tasks/serializers.py:13 | values sent for id, status, reporter and assignee do not change what is written |
| Serializers.CheckText | taskr/tasks/models.py:19-30 | a text field is refused when required and missing, null, blank unless allowed, or longer than its bound after trimming; any other given text is accepted as its trimmed text |
| Serializers.CheckCategory | taskr/tasks/models.py:32-38 | the category is refused when required and missing, null or empty, not an integer, or not an existing category (DoesNotExist); an integer naming an existing category is accepted as that category |
| Serializers.StatusChoice | taskr/tasks/serializers.py:16-19 | a status text is accepted exactly when it is the decimal code of that status |
| Serializers.PriorityChoice | taskr/tasks/serializers.py:6-13 | a priority text is accepted exactly when it is the decimal code of that priority |
| Serializers.StatusChoiceOfCode | taskr/tasks/models.py:47-52 | each status is selected by its own code |
| Serializers.PriorityChoiceOfCode | taskr/tasks/models.py:40-45 | each priority is selected by its own code |
| Serializers.CheckPriority | taskr/tasks/models.py:40-45 | the priority may be omitted; null and values outside the choices are refused, never clamped; a choice is accepted as its priority |
| Serializers.ErrorsOf | taskr/tasks/views.py:84-87 | the error map names exactly the refused writable fields, each with its own problem |
| Serializers.ValidateTask | taskr/tasks/serializers.py:6-13 | validation succeeds exactly when no field check refuses; a failure reports every refused field with its problem; a success holds exactly the submitted writable fields, within bounds, as the trimmed texts, the category `int()` reads and the chosen priority; a create needs a name and a category |
| Serializers.CreatedTaskIsValid | taskr/tasks/models.py:19-30 | a task built from validated create changes has a nonempty name of at most 300 characters, a description of at most 2000 and an existing category |
| Serializers.UpdatedTaskIsValid | taskr/tasks/models.py:19-30 | a task within the column bounds stays within them after validated update changes, and a changed category exists |
| Serializers.ApplyChanges | taskr/tasks/views.py:113-121 | an update sets exactly the submitted writable fields and keeps id, status, reporter and assignee |
| Serializers.ValidateStatus | taskr/tasks/serializers.py:16-19 | a missing status is accepted as no value; null is refused as NotNull and a non-choice as InvalidChoice, both under the status key alone; an accepted value is the status of that code |
| Serializers.Represent | taskr/tasks/serializers.py:9-12 | the eight-field representation reads back to the same task |
| TaskViews.ResolveUser | taskr/tasks/views.py:164-170 | any text `int()` refuses (blank or non-numeric) unassigns, a missing or null value is a 404, and a numeric id is that user or a 404 |
| TaskViews.ResolveDecimal | taskr/tasks/views.py:164-170 | a user id sent as decimal text resolves to that user, or to a 404 when there is none |
| TaskViews.StoredTask | taskr/tasks/models.py:19-70 | a task the store holds is keyed by its own id and refers to an existing category, reporter and assignee within its column bounds |
| TaskViews.FreshIdHasNoEntries | taskr/tasks/views.py:66-77 | the id a new task gets is unused and has no log entries yet |
| TaskViews.OpenedAfterAdd | taskr/tasks/views.py:70-77 | after a new task's CREATED entry is logged, that entry is the task's whole log and every task's log still starts with its creation |
| TaskViews.OpenedAfterReplace | taskr/tasks/views.py:123-130 | logging one more entry for a stored task, saved with the same reporter, keeps every task's log starting with its creation |
| TaskViews.RowsAfterAdd | taskr/tasks/views.py:66-68 | a consistent row stored under the next id keeps every row consistent and below the next id |
| TaskViews.RefersAfterAdd | taskr/tasks/views.py:70-77 | an entry logged for the task just stored refers to a stored row, as all earlier entries do |
| TaskViews.AddKeepsInvariant | taskr/tasks/views.py:63-77 | storing a new task under the next id with its CREATED entry keeps the store invariant, and that entry is the task's whole log |
| TaskViews.ReplaceKeepsInvariant | taskr/tasks/views.py:120-130 | saving a consistent task with the same id and reporter, logged with one entry, keeps the store invariant |
| TaskViews.DeleteKeepsInvariant | taskr/tasks/views.py:143-144 | deleting a task with its entries keeps the store invariant |
| TaskViews.TaskStore.constructor | taskr/tasks/models.py:13-73 | an empty store, with no tasks and no entries, satisfies the invariant |
| TaskViews.TaskStore.Insert | taskr/tasks/views.py:66-77 | a new row goes in under an unused id, with exactly one CREATED "Task created." entry by its reporter, and the invariant holds |
| TaskViews.TaskStore.Save | taskr/tasks/views.py:176-186 | a stored row is replaced by its new version and exactly one entry is appended, and nothing else changes |
| TaskViews.TaskStore.Create | taskr/tasks/views.py:59-87 | an invalid body is a 400 with its errors and no change; a valid one stores a TODO, unassigned task reported by the actor under a fresh id and appends exactly one CREATED "Task created." entry |
| TaskViews.TaskStore.Detail | taskr/tasks/views.py:100-107 | an unknown id is a 404; otherwise the answer is the representation of the stored task |
| TaskViews.TaskStore.Update | taskr/tasks/views.py:109-137 | an unknown id is a 404 and an invalid body a 400, both with no change; otherwise exactly the submitted writable fields change and exactly one EDITED entry is appended |
| TaskViews.TaskStore.Delete | taskr/tasks/views.py:139-149 | an unknown id is a 404 with no change; otherwise the task and its entries go, nothing is logged, and the task has no entries afterwards |
| TaskViews.TaskStore.Assign | taskr/tasks/views.py:162-190 | an unknown task or user is a 404 with no change; the current assignee again is a 204 with no change; otherwise the assignee is set and exactly one ASSIGNED entry is appended |
| TaskViews.TaskStore.ChangeStatus | taskr/tasks/views.py:203-235 | an invalid status is a 400 with no change; the current status is a 204 with no change; any other outcome, a missing status included, saves the task with that status and appends exactly one STATUS_CHANGED entry |
| TaskViews.TaskStore.EventLog | taskr/tasks/views.py:248-255 | an unknown task is a 404; otherwise the answer is exactly the task's entries, beginning with its creation by its reporter |
| TaskViews.TaskStore.List | taskr/tasks/views.py:45-57 | the listing holds each stored task exactly once, in ascending creation order |
| TaskViews.PrivilegedBodyValid | taskr/tasks/serializers.py:13 | a create body with a plain name and description, an existing category and priority 2 validates to exactly those values, whatever it claims for status, reporter and assignee |
| TaskViews.CreateDropsPrivilegedFields | taskr/tasks/serializers.py:13 | a create body claiming DONE, another reporter and an assignee yields a TODO task reported by the actor and assigned to nobody |
| TaskViews.AssignTwice | taskr/tasks/views.py:172-186 | assigning a new user logs once, and repeating the request is a 204 that logs nothing |
| TaskViews.ChangeStatusTwice | taskr/tasks/views.py:211-228 | any status may follow any other, logging once, and repeating the request is a 204 that logs nothing |
| TaskViews.ChangeStatusWithoutStatus | taskr/tasks/views.py:214-228 | a status request without a status keeps the task and still logs STATUS_CHANGED |
| UserViews.CreatedCount | taskr/users/views.py:30-31 | the count is at most the number of tasks, and zero exactly when the user reported none |
| UserViews.AssignedCount | taskr/users/views.py:35-36 | the count is at most the number of tasks, and zero exactly when none is assigned to the user |
| UserViews.CompletedCount | taskr/users/views.py:37-39 | the count is at most the number of tasks, and zero exactly when no task assigned to the user is DONE |
| UserViews.IncompletedCount | taskr/users/views.py:40-42 | the count is at most the number of tasks, and zero exactly when no task assigned to the user is TODO or IN_PROGRESS |
| UserViews.CompletedPlusIncompleted | taskr/users/views.py:35-42 | completed plus incompleted equals assigned, since a status is one of three values |
| UserViews.UserReport | taskr/users/views.py:24-51 | the report holds the four counts, bounded by the number of tasks, with completed + incompleted = assigned |
| UserViews.NoTasksNoCounts | taskr/users/tests.py:93-107 | all four counts are zero exactly when the user neither reported nor is assigned any task |
| UserViews.ReportAppend | taskr/users/views.py:28-42 | each count over two stretches of the table is the sum of the counts over each |
| UserViews.MixedReport | taskr/users/tests.py:115-153 | two tasks assigned to the user, one DONE and one IN_PROGRESS, plus one task the user reported, give created 1, assigned 2, completed 1 and incompleted 1 |
| UserViews.Get | taskr/users/views.py:24-51 | the endpoint answers the report over the current listing, reads the store without changing it; completed + incompleted = assigned, and all counts are zero exactly when no listed task names the user |

## Left out

- HTTP routing, the `Checkpoint` view and token issuance: these are transport. The handlers are methods, and responses are the `Response` datatype, named by status code.
- Authentication and permissions: the acting user is an input to every handler, and it must be an existing user.
- Pagination of the task list: the list is the whole ordered sequence.
- Wall-clock timestamps (`created_on`, `modified_on`): an id counter that only grows gives creation order instead.
- The shape of the event-log response: its serializer is imported by tasks/views.py but not defined in tasks/serializers.py, so `TaskStore.EventLog` answers the `LogEntry` values themselves.
- Exact text of the ASSIGNED and STATUS_CHANGED descriptions: it depends on how users and serializer data print. A `Note` keeps only the target user or the new status.
- Event display labels in the log entry's `__str__`: the enumerations module is not part of this model.
- The stale, unrouted `UserReports` in tasks/views.py: only the routed report in users/views.py is modelled.
- Transactions and concurrent requests: every handler is one atomic step.
- Category creation and editing, with the category column bounds: the store's categories and users are fixed inputs, and nothing in the model writes a category.
- `PyText.ParseInt`: does not model underscores between digits or non-ASCII digits, which Python's `int()` accepts.
- JSON numbers, booleans and floats in a body: a given value is modelled as its text. Choice lookups compare that text. Key lookups apply `int()` to the value itself, so a JSON `1.5` or `true` selects id 1 in the source, while the model reads it as non-numeric text (an unassign, or IncorrectType for a category). A JSON boolean, list or object sent as `name` or `description` is refused by the source as not a valid string, while the model accepts its text. A list or object sent as `user` makes the key lookup raise a TypeError, which tasks/views.py:169 does not catch, so the source answers 500, while the model unassigns and logs.
- Form-encoded bodies: request bodies are modelled as JSON. In a form body an empty `priority` or `status` is read as absent (a create then gets MEDIUM, a status request saves and logs), while the model reads it as the empty text and refuses it.
- Database integer width: an id beyond the database's integer range makes the source fail with a database error (a 500); the model looks it up like any other id and answers 404 or DoesNotExist.
- Models.DeleteUser: the failure names every task that blocks the deletion; the ORM the project targets stops at the first protecting relation and names only its tasks.
- Framework details outside the modelled field rules: the null-character check on text fields, and the log description's 2000-character bound, which is not checked when saving.
