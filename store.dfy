/** The tables behind the task views and the views that change them: creating,
    editing and deleting tasks (deletion cascades to answers and their comments),
    answering a task, commenting on an answer, and the listing of a subordinate's tasks. */
module Store {
  import opened Wrappers
  import opened Models
  import opened Seqs
  import opened Access

  /** How a view ends: success with a value, a 404, a redirect because the check
      failed, or a save the database refuses. */
  datatype Outcome<T> = Ok(value: T) | NotFound | Denied | Rejected

  /** The cleaned data of a `TaskForm`. */
  datatype TaskFields = TaskFields(
    title: string,
    description: Option<string>,
    dueDate: Option<Date>,
    status: nat,
    priority: nat,
    assignees: set<UserId>,
    tags: set<TagId>)

  /** What form validation guarantees before `form_valid` runs: the choice fields hold
      a listed value and the assignees are existing users. */
  predicate FieldsValid(fields: TaskFields, users: set<UserId>)
  {
    fields.status in ChoiceValues(StatusChoices) &&
    fields.priority in ChoiceValues(PriorityChoices) &&
    fields.assignees <= users
  }

  /** The form applied to the task row `id` created by `creator`. */
  function TaskFrom(id: TaskId, fields: TaskFields, creator: UserId): Task
  {
    Task(id, fields.title, fields.description, fields.status, fields.priority,
         fields.dueDate, creator, fields.assignees, fields.tags)
  }

  /** One entry of the subordinate view: an assigned task and the subordinate's first
      answer to it, if any. */
  datatype Entry = Entry(task: Task, answer: Option<TaskAnswer>)

  /** Every stored task carries its own key and listed choice values, and its creator
      and assignees are existing users. */
  ghost predicate TasksIntact(users: set<UserId>, tasks: map<TaskId, Task>)
  {
    forall id :: id in tasks ==>
      tasks[id].id == id && WellFormed(tasks[id]) &&
      tasks[id].creator in users && tasks[id].assignees <= users
  }

  /** Every answer belongs to an existing task and an existing user. */
  ghost predicate AnswersIntact(users: set<UserId>, taskIds: set<TaskId>, answers: map<AnswerId, TaskAnswer>)
  {
    forall a :: a in answers ==> answers[a].task in taskIds && answers[a].user in users
  }

  /** Every comment is on an existing answer and comes from an existing user who is a
      direct manager of the answer's author. */
  ghost predicate CommentsIntact(users: set<UserId>, rel: Subordination, answers: map<AnswerId, TaskAnswer>,
                                 comments: map<CommentId, AnswerComment>)
  {
    forall c :: c in comments ==>
      comments[c].answer in answers && comments[c].manager in users &&
      Supervises(rel, comments[c].manager, answers[comments[c].answer].user)
  }

  /** The keys handed out so far by an auto-increment counter that starts at 1. */
  predicate KeysBelow(keys: set<nat>, next: nat)
  {
    0 < next && forall k :: k in keys ==> 0 < k < next
  }

  /** Writing a valid task row under its own key keeps the tables intact. */
  lemma StoreTask(users: set<UserId>, tasks: map<TaskId, Task>, answers: map<AnswerId, TaskAnswer>, t: Task)
    requires TasksIntact(users, tasks) && AnswersIntact(users, tasks.Keys, answers)
    requires WellFormed(t) && t.creator in users && t.assignees <= users
    ensures TasksIntact(users, tasks[t.id := t]) && AnswersIntact(users, tasks[t.id := t].Keys, answers)
  {
  }

  /** The answers left once task `id` is deleted. */
  function AnswersKept(answers: map<AnswerId, TaskAnswer>, id: TaskId): map<AnswerId, TaskAnswer>
  {
    map a | a in answers && answers[a].task != id :: answers[a]
  }

  /** The comments left once task `id` is deleted: those not on one of its answers. */
  function CommentsKept(comments: map<CommentId, AnswerComment>, answers: map<AnswerId, TaskAnswer>,
                        id: TaskId): map<CommentId, AnswerComment>
  {
    map c | c in comments && !(comments[c].answer in answers && answers[comments[c].answer].task == id) :: comments[c]
  }

  /** Deleting a task removes exactly its answers, and the remaining answers still point
      at existing tasks. */
  lemma CascadeAnswers(users: set<UserId>, taskIds: set<TaskId>, answers: map<AnswerId, TaskAnswer>, id: TaskId)
    requires AnswersIntact(users, taskIds, answers)
    ensures var kept := AnswersKept(answers, id);
      && AnswersIntact(users, taskIds - {id}, kept)
      && (forall a :: a in answers ==> (a in kept <==> answers[a].task != id))
      && (forall a :: a in kept ==> kept[a] == answers[a])
  {
  }

  /** Deleting a task removes exactly the comments on its answers, and the remaining
      comments still point at remaining answers. */
  lemma CascadeComments(users: set<UserId>, rel: Subordination, answers: map<AnswerId, TaskAnswer>,
                        comments: map<CommentId, AnswerComment>, id: TaskId)
    requires CommentsIntact(users, rel, answers, comments)
    ensures var kept := CommentsKept(comments, answers, id);
      && CommentsIntact(users, rel, AnswersKept(answers, id), kept)
      && (forall c :: c in comments ==> (c in kept <==> answers[comments[c].answer].task != id))
      && (forall c :: c in kept ==> kept[c] == comments[c])
  {
  }

  /** The rows of `tasks` with keys in [lo, hi), in primary-key order. */
  function Rows(tasks: map<TaskId, Task>, lo: nat, hi: nat): (r: seq<Task>)
    decreases hi - lo
    ensures forall t :: t in r <==> exists id :: lo <= id < hi && id in tasks && tasks[id] == t
  {
    if lo >= hi then []
    else
      var rest := Rows(tasks, lo + 1, hi);
      if lo in tasks then [tasks[lo]] + rest else rest
  }

  /** When every row carries its own key, the rows come in strictly increasing id order. */
  lemma {:induction false} RowsIncreasing(tasks: map<TaskId, Task>, lo: nat, hi: nat)
    requires forall id :: id in tasks ==> tasks[id].id == id
    ensures IncreasingBy(Rows(tasks, lo, hi), IdOf)
    ensures forall t :: t in Rows(tasks, lo, hi) ==> lo <= t.id < hi
    decreases hi - lo
  {
    if lo < hi {
      RowsIncreasing(tasks, lo + 1, hi);
      if lo in tasks {
        var rest := Rows(tasks, lo + 1, hi);
        forall y | y in rest ensures IdOf(tasks[lo]) < IdOf(y) {
        }
        ConsIncreasing(tasks[lo], rest, IdOf);
      }
    }
  }

  /** `Task.objects.filter(assignees=user).distinct()`. */
  function AssignedTo(rows: seq<Task>, user: UserId): seq<Task>
  {
    Filter(rows, (t: Task) => user in t.assignees)
  }

  predicate AnswerBy(a: TaskAnswer, taskId: TaskId, user: UserId)
  {
    a.task == taskId && a.user == user
  }

  /** `TaskAnswer.objects.filter(task=..., user=...).first()` over keys [lo, hi): the
      smallest matching key, since `first` orders an unordered queryset by primary key. */
  function FirstAnswer(answers: map<AnswerId, TaskAnswer>, taskId: TaskId, user: UserId, lo: nat, hi: nat): (r: Option<AnswerId>)
    decreases hi - lo
    ensures r.Some? ==> lo <= r.value < hi && r.value in answers && AnswerBy(answers[r.value], taskId, user)
    ensures r.Some? ==> forall k :: lo <= k < r.value && k in answers ==> !AnswerBy(answers[k], taskId, user)
    ensures r.None? ==> forall k :: lo <= k < hi && k in answers ==> !AnswerBy(answers[k], taskId, user)
  {
    if lo >= hi then None
    else if lo in answers && AnswerBy(answers[lo], taskId, user) then Some(lo)
    else FirstAnswer(answers, taskId, user, lo + 1, hi)
  }

  class TaskStore {
    /** The registered users and the manager/subordinate relation; no view here changes them. */
    const users: set<UserId>
    const subordinates: Subordination
    var tasks: map<TaskId, Task>
    var answers: map<AnswerId, TaskAnswer>
    var comments: map<CommentId, AnswerComment>
    /** The next value of each auto-increment primary key. */
    var nextTask: nat
    var nextAnswer: nat
    var nextComment: nat

    ghost predicate Valid()
      reads this
    {
      && TasksIntact(users, tasks)
      && AnswersIntact(users, tasks.Keys, answers)
      && CommentsIntact(users, subordinates, answers, comments)
      && KeysBelow(tasks.Keys, nextTask)
      && KeysBelow(answers.Keys, nextAnswer)
      && KeysBelow(comments.Keys, nextComment)
    }

    /** The table of tasks in primary-key order. */
    function TaskRows(): seq<Task>
      reads this
    {
      Rows(tasks, 0, nextTask)
    }

    /** The subordinate's first answer to `taskId`. */
    function AnswerOf(taskId: TaskId, user: UserId): (r: Option<TaskAnswer>)
      reads this
      ensures r.Some? ==> exists k :: k in answers && answers[k] == r.value && AnswerBy(r.value, taskId, user)
      ensures r.None? ==> forall k :: k in answers && k < nextAnswer ==> !AnswerBy(answers[k], taskId, user)
    {
      match FirstAnswer(answers, taskId, user, 0, nextAnswer)
      case Some(k) => Some(answers[k])
      case None => None
    }

    constructor (users: set<UserId>, subordinates: Subordination)
      ensures Valid()
      ensures this.users == users && this.subordinates == subordinates
      ensures tasks == map[] && answers == map[] && comments == map[]
    {
      this.users := users;
      this.subordinates := subordinates;
      tasks, answers, comments := map[], map[], map[];
      nextTask, nextAnswer, nextComment := 1, 1, 1;
    }

    /** `TaskCreateView.form_valid`: the new task gets the next key and the requester as
        its creator. */
    method CreateTask(requester: UserId, fields: TaskFields) returns (id: TaskId)
      requires Valid() && requester in users && FieldsValid(fields, users)
      modifies this
      ensures Valid()
      ensures id == old(nextTask) && id !in old(tasks)
      ensures tasks == old(tasks)[id := TaskFrom(id, fields, requester)]
      ensures tasks[id].creator == requester
      ensures answers == old(answers) && comments == old(comments)
      ensures nextTask == old(nextTask) + 1 && nextAnswer == old(nextAnswer) && nextComment == old(nextComment)
    {
      id := nextTask;
      StoreTask(users, tasks, answers, TaskFrom(id, fields, requester));
      tasks := tasks[id := TaskFrom(id, fields, requester)];
      nextTask := nextTask + 1;
    }

    /** `EditTaskView`: `get_task` and `dispatch`, then `form_valid`. A key of 0 is falsy,
        so the check is skipped and the form inserts a new task without a creator. The
        database draws the next key for that row and then refuses it; the key drawn is
        not given back. */
    method EditTask(requester: UserId, taskId: TaskId, fields: TaskFields) returns (o: Outcome<()>)
      requires Valid() && requester in users && FieldsValid(fields, users)
      modifies this
      ensures Valid()
      ensures taskId == 0 <==> o == Rejected
      ensures o == NotFound <==> taskId != 0 && taskId !in old(tasks)
      ensures o == Denied <==> taskId in old(tasks) && !IsCreator(requester, old(tasks)[taskId])
      ensures o.NotFound? || o.Denied? ==> unchanged(this)
      ensures o.Rejected? ==> tasks == old(tasks) && nextTask == old(nextTask) + 1
      ensures o.Ok? ==> (taskId in old(tasks) &&
        tasks == old(tasks)[taskId := TaskFrom(taskId, fields, old(tasks)[taskId].creator)])
      ensures answers == old(answers) && comments == old(comments)
      ensures !o.Rejected? ==> nextTask == old(nextTask)
      ensures nextAnswer == old(nextAnswer) && nextComment == old(nextComment)
    {
      if taskId == 0 {
        nextTask := nextTask + 1;
        return Rejected;
      }
      if taskId !in tasks {
        return NotFound;
      }
      var task := tasks[taskId];
      if !IsCreator(requester, task) {
        return Denied;
      }
      StoreTask(users, tasks, answers, TaskFrom(taskId, fields, task.creator));
      tasks := tasks[taskId := TaskFrom(taskId, fields, task.creator)];
      o := Ok(());
    }

    /** `DeleteTaskView.post`: only the creator may delete; deletion cascades. */
    method DeleteTask(requester: UserId, taskId: TaskId) returns (o: Outcome<()>)
      requires Valid()
      modifies this
      ensures Valid()
      ensures o == NotFound <==> taskId !in old(tasks)
      ensures o == Denied <==> taskId in old(tasks) && !IsCreator(requester, old(tasks)[taskId])
      ensures o.Ok? || o.NotFound? || o.Denied?
      ensures !o.Ok? ==> unchanged(this)
      ensures o.Ok? ==> tasks == old(tasks) - {taskId} &&
                        answers == AnswersKept(old(answers), taskId) &&
                        comments == CommentsKept(old(comments), old(answers), taskId)
      ensures nextTask == old(nextTask) && nextAnswer == old(nextAnswer) && nextComment == old(nextComment)
    {
      if taskId !in tasks {
        return NotFound;
      }
      if !IsCreator(requester, tasks[taskId]) {
        return Denied;
      }
      CascadeAnswers(users, tasks.Keys, answers, taskId);
      CascadeComments(users, subordinates, answers, comments, taskId);
      comments := CommentsKept(comments, answers, taskId);
      answers := AnswersKept(answers, taskId);
      tasks := tasks - {taskId};
      o := Ok(());
    }

    /** `AddAnswerView`: the creator or an assignee answers; the answer records the task
        and the requester. */
    method AddAnswer(requester: UserId, taskId: TaskId, comment: Option<string>) returns (o: Outcome<AnswerId>)
      requires Valid() && requester in users
      modifies this
      ensures Valid()
      ensures o == NotFound <==> taskId !in old(tasks)
      ensures o == Denied <==> taskId in old(tasks) && !Involved(requester, old(tasks)[taskId])
      ensures o.Ok? || o.NotFound? || o.Denied?
      ensures !o.Ok? ==> unchanged(this)
      ensures o.Ok? ==> o.value == old(nextAnswer) && o.value !in old(answers) &&
                        answers == old(answers)[o.value := TaskAnswer(taskId, requester, comment)] &&
                        nextAnswer == old(nextAnswer) + 1
      ensures tasks == old(tasks) && comments == old(comments)
      ensures nextTask == old(nextTask) && nextComment == old(nextComment)
    {
      if taskId !in tasks {
        return NotFound;
      }
      if !Involved(requester, tasks[taskId]) {
        return Denied;
      }
      var id := nextAnswer;
      answers := answers[id := TaskAnswer(taskId, requester, comment)];
      nextAnswer := nextAnswer + 1;
      o := Ok(id);
    }

    /** `AddCommentView`: only a direct manager of the answer's author comments; the
        comment records the answer and the requester as manager. */
    method AddComment(requester: UserId, answerId: AnswerId, text: string) returns (o: Outcome<CommentId>)
      requires Valid() && requester in users
      modifies this
      ensures Valid()
      ensures o == NotFound <==> answerId !in old(answers)
      ensures o == Denied <==> answerId in old(answers) && !CanComment(subordinates, requester, old(answers)[answerId])
      ensures o.Ok? || o.NotFound? || o.Denied?
      ensures !o.Ok? ==> unchanged(this)
      ensures o.Ok? ==> o.value == old(nextComment) && o.value !in old(comments) &&
                        comments == old(comments)[o.value := AnswerComment(answerId, requester, text)] &&
                        nextComment == old(nextComment) + 1
      ensures tasks == old(tasks) && answers == old(answers)
      ensures nextTask == old(nextTask) && nextAnswer == old(nextAnswer)
    {
      if answerId !in answers {
        return NotFound;
      }
      if !CanComment(subordinates, requester, answers[answerId]) {
        return Denied;
      }
      var id := nextComment;
      comments := comments[id := AnswerComment(answerId, requester, text)];
      nextComment := nextComment + 1;
      o := Ok(id);
    }

    /** `SubordinatesTasksView.get_context_data`: one entry per task assigned to the
        subordinate, in row order, each with the subordinate's first answer to it. */
    method SubordinateTasks(subordinate: UserId) returns (o: Outcome<seq<Entry>>)
      ensures subordinate !in users <==> o == NotFound
      ensures o.Ok? || o.NotFound?
      ensures var subTasks := AssignedTo(TaskRows(), subordinate);
        o.Ok? ==> (|o.value| == |subTasks| &&
          forall i :: 0 <= i < |subTasks| ==>
            o.value[i] == Entry(subTasks[i], AnswerOf(subTasks[i].id, subordinate)))
    {
      if subordinate !in users {
        return NotFound;
      }
      var subTasks := AssignedTo(TaskRows(), subordinate);
      var entries: seq<Entry> := [];
      for i := 0 to |subTasks|
        invariant |entries| == i
        invariant forall k :: 0 <= k < i ==> entries[k] == Entry(subTasks[k], AnswerOf(subTasks[k].id, subordinate))
      {
        var answer := AnswerOf(subTasks[i].id, subordinate);
        entries := entries + [Entry(subTasks[i], answer)];
      }
      o := Ok(entries);
    }

    /** The table in primary-key order holds each stored task once, so the listing of
        any user shows every task at most once. */
    lemma RowsAreTable()
      requires Valid()
      ensures forall t :: t in TaskRows() <==> t.id in tasks && tasks[t.id] == t
      ensures DistinctBy(TaskRows(), IdOf)
    {
      RowsIncreasing(tasks, 0, nextTask);
      IncreasingDistinct(TaskRows(), IdOf);
    }

    /** The subordinate view lists exactly the stored tasks assigned to the subordinate,
        in strictly increasing id order, so each of them once. */
    lemma AssignedEntries(subordinate: UserId)
      requires Valid()
      ensures var subTasks := AssignedTo(TaskRows(), subordinate);
        && (forall t :: t in subTasks <==> t.id in tasks && tasks[t.id] == t && subordinate in t.assignees)
        && IncreasingBy(subTasks, IdOf)
    {
      RowsIncreasing(tasks, 0, nextTask);
      FilterIncreasing(TaskRows(), (t: Task) => subordinate in t.assignees, IdOf);
    }
  }
}
