/** The records of the task tracker: tasks with their choice tables and defaults,
    answers to tasks, manager comments on answers, and the manager/subordinate relation. */
module Models {
  import opened Wrappers
  import Decimal

  type UserId = nat
  type TagId = nat
  type TaskId = nat
  type AnswerId = nat
  type CommentId = nat
  /** A calendar date as a day number; only its order matters here. */
  type Date = nat

  /** A choice table: value stored in the column, label shown to the user. */
  type Choices = seq<(nat, string)>

  const StatusNew: nat := 2
  const StatusInProgress: nat := 1
  const StatusDone: nat := 0

  const PriorityLow: nat := 0
  const PriorityMedium: nat := 1
  const PriorityHigh: nat := 2

  const StatusChoices: Choices := [(StatusNew, "Новое"), (StatusInProgress, "В процессе"), (StatusDone, "Завершено")]
  const PriorityChoices: Choices := [(PriorityLow, "Низкий"), (PriorityMedium, "Средний"), (PriorityHigh, "Высокий")]
  const UnknownPriority: string := "Неизвестно"

  /** A task. `description` and `dueDate` are nullable columns; `assignees` and
      `tags` are the many-to-many relations; `creator` is a required foreign key. */
  datatype Task = Task(
    id: TaskId,
    title: string,
    description: Option<string>,
    status: nat,
    priority: nat,
    dueDate: Option<Date>,
    creator: UserId,
    assignees: set<UserId>,
    tags: set<TagId>)

  /** The primary key of a task row. */
  function IdOf(t: Task): int
  {
    t.id
  }

  /** An answer to exactly one task by exactly one user; the attached file is not modelled. */
  datatype TaskAnswer = TaskAnswer(task: TaskId, user: UserId, comment: Option<string>)

  /** A comment by a manager on exactly one answer. */
  datatype AnswerComment = AnswerComment(answer: AnswerId, manager: UserId, text: string)

  /** `User.subordinates`: a directed, non-symmetric relation holding (manager, subordinate)
      pairs. Nothing forbids cycles or a user supervising themself. */
  type Subordination = set<(UserId, UserId)>

  predicate Supervises(rel: Subordination, manager: UserId, user: UserId)
  {
    (manager, user) in rel
  }

  /** `dict(table).get(key)`: a later pair with the same key overrides an earlier one. */
  function Lookup(table: Choices, key: nat): (r: Option<string>)
    ensures r.Some? <==> exists i :: 0 <= i < |table| && table[i].0 == key
    ensures r.Some? ==> exists i :: 0 <= i < |table| && table[i] == (key, r.value) &&
                                   forall j :: i < j < |table| ==> table[j].0 != key
  {
    if table == [] then None
    else if table[|table| - 1].0 == key then Some(table[|table| - 1].1)
    else
      var r := Lookup(table[..|table| - 1], key);
      assert forall i :: 0 <= i < |table| - 1 ==> table[..|table| - 1][i] == table[i];
      r
  }

  /** The values a choice table allows. */
  function ChoiceValues(table: Choices): (r: set<nat>)
    ensures forall v :: v in r <==> Lookup(table, v).Some?
  {
    set i | 0 <= i < |table| :: table[i].0
  }

  /** The field choices that model-form validation enforces on status and priority. */
  predicate WellFormed(t: Task)
  {
    t.status in ChoiceValues(StatusChoices) && t.priority in ChoiceValues(PriorityChoices)
  }

  /** `get_priority_display`: the label of the priority, or "Неизвестно" for a value
      outside the table. */
  function PriorityDisplay(priority: nat): string
  {
    Lookup(PriorityChoices, priority).GetOr(UnknownPriority)
  }

  /** `get_status_display`: the label of the status; a value outside the table is shown
      as its own decimal digits. */
  function StatusDisplay(status: nat): string
  {
    match Lookup(StatusChoices, status)
    case Some(text) => text
    case None => Decimal.DecimalString(status)
  }

  /** `Task.__str__`: the title, then the status label in parentheses. */
  function TaskString(t: Task): string
  {
    t.title + " (" + StatusDisplay(t.status) + ")"
  }

  /** A task given only the required fields takes the column defaults. */
  function DefaultTask(id: TaskId, title: string, creator: UserId): Task
  {
    Task(id, title, None, StatusNew, PriorityLow, None, creator, {}, {})
  }

  lemma WellFormedValues(t: Task)
    ensures WellFormed(t) <==> t.status in {2, 1, 0} && t.priority in {0, 1, 2}
  {
    assert ChoiceValues(StatusChoices) == {2, 1, 0} by {
      assert StatusChoices[0].0 == 2 && StatusChoices[1].0 == 1 && StatusChoices[2].0 == 0;
    }
    assert ChoiceValues(PriorityChoices) == {0, 1, 2} by {
      assert PriorityChoices[0].0 == 0 && PriorityChoices[1].0 == 1 && PriorityChoices[2].0 == 2;
    }
  }

  lemma PriorityDisplayLabels(p: nat)
    ensures p == 0 ==> PriorityDisplay(p) == "Низкий"
    ensures p == 1 ==> PriorityDisplay(p) == "Средний"
    ensures p == 2 ==> PriorityDisplay(p) == "Высокий"
    ensures p > 2 ==> PriorityDisplay(p) == "Неизвестно"
  {
    if p > 2 {
      assert forall i :: 0 <= i < |PriorityChoices| ==> PriorityChoices[i].0 != p;
    } else {
      assert PriorityChoices[p].0 == p;
      var i :| 0 <= i < |PriorityChoices| && PriorityChoices[i] == (p, Lookup(PriorityChoices, p).value);
      assert i == p;
    }
  }

  lemma StatusDisplayLabels(s: nat)
    ensures s == 2 ==> StatusDisplay(s) == "Новое"
    ensures s == 1 ==> StatusDisplay(s) == "В процессе"
    ensures s == 0 ==> StatusDisplay(s) == "Завершено"
    ensures s > 2 ==> Decimal.IsDigitString(StatusDisplay(s)) &&
                      Decimal.DigitsValue(StatusDisplay(s)) == s
  {
    if s > 2 {
      assert forall i :: 0 <= i < |StatusChoices| ==> StatusChoices[i].0 != s;
      Decimal.DecimalRoundTrip(s);
    } else {
      assert StatusChoices[2 - s].0 == s;
      var i :| 0 <= i < |StatusChoices| && StatusChoices[i] == (s, Lookup(StatusChoices, s).value);
      assert i == 2 - s;
    }
  }

  /** For well-formed tasks the string form determines the title and the status: the
      three labels differ in their second-to-last letter, which sits two places before
      the closing parenthesis, and the title is what precedes " (" and the label. */
  lemma TaskStringDetermines(t1: Task, t2: Task)
    requires WellFormed(t1) && WellFormed(t2) && TaskString(t1) == TaskString(t2)
    ensures t1.title == t2.title && t1.status == t2.status
  {
    WellFormedValues(t1);
    WellFormedValues(t2);
    StatusDisplayLabels(t1.status);
    StatusDisplayLabels(t2.status);
    var s := TaskString(t1);
    var l1, l2 := StatusDisplay(t1.status), StatusDisplay(t2.status);
    assert s[|s| - 3] == l1[|l1| - 2];
    assert s[|s| - 3] == l2[|l2| - 2];
    assert t1.title == s[..|t1.title|];
    assert t2.title == s[..|t2.title|];
  }

  lemma DefaultTaskFields(id: TaskId, title: string, creator: UserId)
    ensures var t := DefaultTask(id, title, creator);
      && WellFormed(t)
      && StatusDisplay(t.status) == "Новое" && PriorityDisplay(t.priority) == "Низкий"
      && t.description.None? && t.dueDate.None? && t.assignees == {} && t.tags == {}
      && t.creator == creator
  {
    WellFormedValues(DefaultTask(id, title, creator));
  }
}
