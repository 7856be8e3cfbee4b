/**
 * How a client's request body becomes changes to a task, and how a task is
 * shown back (tasks/serializers.py together with the field rules of the
 * model it is built from).
 *
 * The task serializer shows eight fields and writes four of them: `id`,
 * `status`, `reporter` and `assignee` are read-only, so values a client sends
 * for them are dropped without an error. The status serializer reads
 * `status` and nothing else.
 */
module Serializers {
  import opened Wrappers
  import opened PyText
  import opened Models

  /**
   * One value of a request body: the key is missing, its value is null, or
   * a value was given. A given value is kept as Python's `str()` of it:
   * choice lookups compare this text, and key lookups convert it with
   * `int()`.
   */
  datatype Raw = Absent | Null | Given(text: string)

  /** The keys of a create or update request body that the task representation names. */
  datatype Payload = Payload(
    id: Raw, name: Raw, description: Raw, category: Raw,
    priority: Raw, status: Raw, reporter: Raw, assignee: Raw)

  /** The part of a payload the task serializer may write. */
  datatype Writable = Writable(name: Raw, description: Raw, category: Raw, priority: Raw)

  /** The allow-list: every read-only key is dropped, whatever its value. */
  function AllowList(p: Payload): (w: Writable)
    ensures w.name == p.name && w.description == p.description
    ensures w.category == p.category && w.priority == p.priority
  {
    Writable(p.name, p.description, p.category, p.priority)
  }

  /** Whatever a body says about a read-only field, the writable part is the same. */
  lemma ReadOnlyIgnored(p: Payload, id: Raw, status: Raw, reporter: Raw, assignee: Raw)
    ensures AllowList(p.(id := id, status := status, reporter := reporter, assignee := assignee)) == AllowList(p)
  {
  }

  datatype FieldName = NameField | DescriptionField | CategoryField | PriorityField | StatusField

  /** Why a field was refused: one message kind per refused field. */
  datatype Problem = Required | NotNull | Blank | TooLong | IncorrectType | DoesNotExist | InvalidChoice

  /** Field-scoped validation errors, as the 400 response carries them. */
  type Errors = map<FieldName, Problem>

  const WritableFields: set<FieldName> := {NameField, DescriptionField, CategoryField, PriorityField}

  /** The outcome of one field: not submitted (and not required), accepted, or refused. */
  datatype Check<+T> = Skip | Accept(value: T) | Reject(problem: Problem) {
    function ToOption(): Option<T> {
      if Accept? then Some(value) else None
    }
  }

  /**
   * A text field: a missing value is refused only when required, null is
   * refused, surrounding whitespace is trimmed, an empty result is refused
   * unless blanks are allowed, and the trimmed text is refused when longer
   * than `maxLength`.
   */
  function CheckText(raw: Raw, required: bool, allowBlank: bool, maxLength: nat): (c: Check<string>)
    ensures c.Skip? <==> raw.Absent? && !required
    ensures raw.Absent? && required ==> c == Reject(Required)
    ensures raw.Null? ==> c == Reject(NotNull)
    ensures c.Accept? ==> raw.Given? && c.value == Strip(raw.text)
    ensures c.Accept? ==> |c.value| <= maxLength && (allowBlank || c.value != [])
    ensures raw.Given? && Strip(raw.text) == [] && !allowBlank ==> c == Reject(Blank)
    ensures raw.Given? && |Strip(raw.text)| > maxLength ==> c == Reject(TooLong)
    ensures raw.Given? && (allowBlank || Strip(raw.text) != []) && |Strip(raw.text)| <= maxLength ==>
              c == Accept(Strip(raw.text))
  {
    match raw
    case Absent => if required then Reject(Required) else Skip
    case Null => Reject(NotNull)
    case Given(text) =>
      var s := Strip(text);
      if s == [] && !allowBlank then Reject(Blank)
      else if |s| > maxLength then Reject(TooLong)
      else Accept(s)
  }

  /**
   * The category key: an empty string counts as null, text that `int()`
   * refuses is of the wrong type, and a well-formed id must name an
   * existing category.
   */
  function CheckCategory(raw: Raw, required: bool, categories: set<CategoryId>): (c: Check<CategoryId>)
    ensures c.Skip? <==> raw.Absent? && !required
    ensures raw.Absent? && required ==> c == Reject(Required)
    ensures raw.Null? || raw == Given("") ==> c == Reject(NotNull)
    ensures c.Accept? ==> c.value in categories && raw.Given? && ParseInt(raw.text) == Some(c.value)
    ensures raw.Given? && raw.text != "" && ParseInt(raw.text).None? ==> c == Reject(IncorrectType)
    ensures raw.Given? && ParseInt(raw.text).Some? && ParseInt(raw.text).value !in categories ==>
              c == Reject(DoesNotExist)
    ensures raw.Given? && ParseInt(raw.text).Some? && ParseInt(raw.text).value in categories ==>
              c == Accept(ParseInt(raw.text).value)
  {
    match raw
    case Absent => if required then Reject(Required) else Skip
    case Null => Reject(NotNull)
    case Given(text) =>
      if text == "" then Reject(NotNull)
      else
        match ParseInt(text)
        case None => Reject(IncorrectType)
        case Some(id) => if id in categories then Accept(id) else Reject(DoesNotExist)
  }

  /** The status a choice text selects: exactly the `str()` of one of the three codes. */
  function StatusChoice(text: string): (r: Option<Status>)
    ensures r.Some? ==> Decimal(StatusCode(r.value)) == text
    ensures r.None? ==> forall s :: Decimal(StatusCode(s)) != text
  {
    if |text| == 1 && IsDigit(text[0]) then StatusFromCode(text[0] as int - '0' as int) else None
  }

  /** The priority a choice text selects: exactly the `str()` of one of the three codes. */
  function PriorityChoice(text: string): (r: Option<Priority>)
    ensures r.Some? ==> Decimal(PriorityCode(r.value)) == text
    ensures r.None? ==> forall p :: Decimal(PriorityCode(p)) != text
  {
    if |text| == 1 && IsDigit(text[0]) then PriorityFromCode(text[0] as int - '0' as int) else None
  }

  /** Every status is selected by the `str()` of its own code. */
  lemma StatusChoiceOfCode(s: Status)
    ensures StatusChoice(Decimal(StatusCode(s))) == Some(s)
  {
  }

  /** Every priority is selected by the `str()` of its own code. */
  lemma PriorityChoiceOfCode(p: Priority)
    ensures PriorityChoice(Decimal(PriorityCode(p))) == Some(p)
  {
  }

  /** The priority field: optional (it has a default), and a value outside the choices is refused, never clamped. */
  function CheckPriority(raw: Raw): (c: Check<Priority>)
    ensures c.Skip? <==> raw.Absent?
    ensures raw.Null? ==> c == Reject(NotNull)
    ensures c.Accept? ==> raw.Given? && PriorityChoice(raw.text) == Some(c.value)
    ensures raw.Given? && PriorityChoice(raw.text).None? ==> c == Reject(InvalidChoice)
    ensures raw.Given? && PriorityChoice(raw.text).Some? ==> c == Accept(PriorityChoice(raw.text).value)
  {
    match raw
    case Absent => Skip
    case Null => Reject(NotNull)
    case Given(text) =>
      match PriorityChoice(text)
      case None => Reject(InvalidChoice)
      case Some(p) => Accept(p)
  }

  /** The writable fields a valid request sets; `None` leaves a field as it is (or at its default). */
  datatype Changes = Changes(
    name: Option<string>, description: Option<string>,
    category: Option<CategoryId>, priority: Option<Priority>)

  /** Changes that respect the column bounds and refer to an existing category. */
  predicate ValidChanges(c: Changes, categories: set<CategoryId>) {
    && (c.name.Some? ==> 0 < |c.name.value| <= NameMaxLength)
    && (c.description.Some? ==> |c.description.value| <= DescriptionMaxLength)
    && (c.category.Some? ==> c.category.value in categories)
  }

  function ErrorsOf(name: Check<string>, description: Check<string>,
                    category: Check<CategoryId>, priority: Check<Priority>): (e: Errors)
    ensures e.Keys <= WritableFields
    ensures NameField in e <==> name.Reject?
    ensures DescriptionField in e <==> description.Reject?
    ensures CategoryField in e <==> category.Reject?
    ensures PriorityField in e <==> priority.Reject?
    ensures name.Reject? ==> e[NameField] == name.problem
    ensures description.Reject? ==> e[DescriptionField] == description.problem
    ensures category.Reject? ==> e[CategoryField] == category.problem
    ensures priority.Reject? ==> e[PriorityField] == priority.problem
  {
    (if name.Reject? then map[NameField := name.problem] else map[])
    + (if description.Reject? then map[DescriptionField := description.problem] else map[])
    + (if category.Reject? then map[CategoryField := category.problem] else map[])
    + (if priority.Reject? then map[PriorityField := priority.problem] else map[])
  }

  /**
   * Validation of the task serializer. A create (`partial == false`) needs
   * a name and a category; an update (`partial == true`) needs nothing.
   * Every submitted field is checked and every refused one reported; only
   * when none is refused are the changes returned, holding exactly the
   * submitted fields.
   */
  function ValidateTask(w: Writable, partial: bool, categories: set<CategoryId>): (r: Result<Changes, Errors>)
    ensures r.Failure? ==> r.error != map[] && r.error.Keys <= WritableFields
    ensures r.Success? ==> ValidChanges(r.value, categories)
    ensures r.Success? ==> && (r.value.name.Some? <==> w.name.Given?)
                           && (r.value.description.Some? <==> w.description.Given?)
                           && (r.value.category.Some? <==> w.category.Given?)
                           && (r.value.priority.Some? <==> w.priority.Given?)
    ensures r.Success? <==> && !CheckText(w.name, !partial, false, NameMaxLength).Reject?
                            && !CheckText(w.description, false, true, DescriptionMaxLength).Reject?
                            && !CheckCategory(w.category, !partial, categories).Reject?
                            && !CheckPriority(w.priority).Reject?
    ensures r.Failure? ==> r.error == ErrorsOf(CheckText(w.name, !partial, false, NameMaxLength),
                                               CheckText(w.description, false, true, DescriptionMaxLength),
                                               CheckCategory(w.category, !partial, categories),
                                               CheckPriority(w.priority))
    ensures r.Success? && r.value.name.Some? ==> r.value.name.value == Strip(w.name.text)
    ensures r.Success? && r.value.description.Some? ==> r.value.description.value == Strip(w.description.text)
    ensures r.Success? && r.value.category.Some? ==> r.value.category == ParseInt(w.category.text)
    ensures r.Success? && r.value.priority.Some? ==> r.value.priority == PriorityChoice(w.priority.text)
    ensures r.Success? && !partial ==> r.value.name.Some? && r.value.category.Some?
    ensures !partial && w.name.Absent? ==> r.Failure? && NameField in r.error && r.error[NameField] == Required
    ensures !partial && w.category.Absent? ==> r.Failure? && CategoryField in r.error && r.error[CategoryField] == Required
    ensures w.name.Given? && |Strip(w.name.text)| > NameMaxLength ==> r.Failure? && NameField in r.error && r.error[NameField] == TooLong
    ensures w.priority.Given? && PriorityChoice(w.priority.text).None? ==>
              r.Failure? && PriorityField in r.error && r.error[PriorityField] == InvalidChoice
  {
    var name := CheckText(w.name, !partial, false, NameMaxLength);
    var description := CheckText(w.description, false, true, DescriptionMaxLength);
    var category := CheckCategory(w.category, !partial, categories);
    var priority := CheckPriority(w.priority);
    if name.Reject? || description.Reject? || category.Reject? || priority.Reject? then
      Failure(ErrorsOf(name, description, category, priority))
    else
      Success(Changes(name.ToOption(), description.ToOption(), category.ToOption(), priority.ToOption()))
  }

  /** A task built from the changes a create validated is within the column bounds. */
  lemma CreatedTaskIsValid(c: Changes, categories: set<CategoryId>, id: TaskId, reporter: UserId)
    requires ValidChanges(c, categories) && c.name.Some? && c.category.Some?
    ensures var t := NewTask(id, c.name.value, c.description, c.category.value, c.priority, reporter);
            ValidTask(t) && t.category in categories
  {
  }

  /** A task within the column bounds stays within them after an update with validated changes. */
  lemma UpdatedTaskIsValid(t: Task, c: Changes, categories: set<CategoryId>)
    requires ValidTask(t) && ValidChanges(c, categories)
    ensures ValidTask(ApplyChanges(t, c))
    ensures c.category.Some? ==> ApplyChanges(t, c).category in categories
  {
  }

  /** An update: the submitted writable fields are set, every other field keeps its value. */
  function ApplyChanges(t: Task, c: Changes): (u: Task)
    ensures u.id == t.id && u.status == t.status && u.reporter == t.reporter && u.assignee == t.assignee
    ensures u.name == (if c.name.Some? then c.name.value else t.name)
    ensures u.description == (if c.description.Some? then c.description.value else t.description)
    ensures u.category == (if c.category.Some? then c.category.value else t.category)
    ensures u.priority == (if c.priority.Some? then c.priority.value else t.priority)
  {
    t.(name := c.name.GetOr(t.name),
       description := c.description.GetOr(t.description),
       category := c.category.GetOr(t.category),
       priority := c.priority.GetOr(t.priority))
  }

  /**
   * Validation of the status serializer: a missing `status` is accepted as
   * "no value", null and values outside the three choices are refused.
   */
  function ValidateStatus(raw: Raw): (r: Result<Option<Status>, Errors>)
    ensures raw.Absent? ==> r == Success(None)
    ensures r.Failure? <==> raw.Null? || (raw.Given? && StatusChoice(raw.text).None?)
    ensures r.Failure? ==> r.error.Keys == {StatusField}
    ensures raw.Null? ==> r == Failure(map[StatusField := NotNull])
    ensures raw.Given? && StatusChoice(raw.text).None? ==> r == Failure(map[StatusField := InvalidChoice])
    ensures r.Success? && raw.Given? ==> r.value.Some? && Decimal(StatusCode(r.value.value)) == raw.text
  {
    match raw
    case Absent => Success(None)
    case Null => Failure(map[StatusField := NotNull])
    case Given(text) =>
      match StatusChoice(text)
      case None => Failure(map[StatusField := InvalidChoice])
      case Some(s) => Success(Some(s))
  }

  /** The representation of a task: exactly eight fields, choices and keys as integers. */
  datatype TaskData = TaskData(
    id: int, name: string, description: string, category: int,
    priority: int, status: int, reporter: int, assignee: Option<int>)

  /** Reading a representation back: its choice codes must be valid. */
  function Restore(d: TaskData): Option<Task> {
    match (PriorityFromCode(d.priority), StatusFromCode(d.status))
    case (Some(p), Some(s)) =>
      Some(Task(d.id, d.name, d.description, d.category, p, s, d.reporter, d.assignee))
    case _ => None
  }

  /** The task as the serializer shows it; it loses nothing, since it reads back to the same task. */
  function Represent(t: Task): (d: TaskData)
    ensures Restore(d) == Some(t)
  {
    TaskData(t.id, t.name, t.description, t.category, PriorityCode(t.priority),
             StatusCode(t.status), t.reporter, t.assignee)
  }
}
