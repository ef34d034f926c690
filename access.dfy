/** The per-request permission checks of the task views. */
module Access {
  import opened Wrappers
  import opened Models

  /** The requester created the task or is one of its assignees: the tasks a user
      sees in the listing, and the tasks a user may answer. */
  predicate Involved(user: UserId, t: Task)
  {
    user == t.creator || user in t.assignees
  }

  /** Only the creator may edit or delete a task. */
  predicate IsCreator(user: UserId, t: Task)
  {
    user == t.creator
  }

  /** A comment on an answer may come only from a direct manager of its author. */
  predicate CanComment(rel: Subordination, manager: UserId, answer: TaskAnswer)
  {
    Supervises(rel, manager, answer.user)
  }

  /** The comment check looks at the direct edge only, and the edge has a direction:
      there is a relation in which `a` manages `b` and `b` may comment on an answer,
      yet `a`, the manager's manager, may not, and `b` does not manage `a`. */
  lemma CommentNeedsDirectManager()
    ensures exists rel: Subordination, a: UserId, b: UserId, ans: TaskAnswer ::
      Supervises(rel, a, b) && CanComment(rel, b, ans) && !CanComment(rel, a, ans) && !Supervises(rel, b, a)
  {
    var rel: Subordination := {(1, 2), (2, 3)};
    var ans := TaskAnswer(1, 3, None);
    assert Supervises(rel, 1, 2) && CanComment(rel, 2, ans) && !CanComment(rel, 1, ans) && !Supervises(rel, 2, 1);
  }
}
