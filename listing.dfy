/** `TaskListView.get_queryset`: the search result (or every task), restricted to the
    tasks the requester created or is assigned to, narrowed by the selected filters
    and ordered by due date. */
module Listing {
  import opened Wrappers
  import opened Models
  import opened Seqs
  import opened Access
  import Search
  import Decimal

  /** The filter selections of the request; an empty set or None means "not selected".
      Tag and assignee selections keep a task sharing at least one selected id, status
      and priority selections require equality. */
  datatype Filters = Filters(
    tags: set<TagId>,
    status: Option<nat>,
    priority: Option<nat>,
    assignees: set<UserId>)

  const NoFilters := Filters({}, None, None, {})

  predicate PassesTags(t: Task, f: Filters)
  {
    f.tags == {} || t.tags * f.tags != {}
  }

  predicate PassesStatus(t: Task, f: Filters)
  {
    f.status.None? || t.status == f.status.value
  }

  predicate PassesPriority(t: Task, f: Filters)
  {
    f.priority.None? || t.priority == f.priority.value
  }

  predicate PassesAssignees(t: Task, f: Filters)
  {
    f.assignees == {} || t.assignees * f.assignees != {}
  }

  /** The conjunction of the four filters. */
  predicate PassesFilters(t: Task, f: Filters)
  {
    PassesTags(t, f) && PassesStatus(t, f) && PassesPriority(t, f) && PassesAssignees(t, f)
  }

  /** `order_by('due_date')`: ascending, tasks without a due date last. */
  predicate DueBefore(a: Task, b: Task)
  {
    match (a.dueDate, b.dueDate)
    case (Some(x), Some(y)) => x <= y
    case (Some(_), None) => true
    case (None, Some(_)) => false
    case (None, None) => true
  }

  /** Absent and empty `q` both mean "no search". */
  function BaseSet(rows: seq<Task>, query: Option<string>, rank: Search.Rank): (r: seq<Task>)
    ensures |r| <= |rows|
    ensures forall t :: t in r ==> t in rows
  {
    if query.Some? && query.value != "" then Search.QSearch(rows, query.value, rank) else rows
  }

  function Visible(tasks: seq<Task>, user: UserId): (r: seq<Task>)
    ensures forall t :: t in r <==> t in tasks && Involved(user, t)
  {
    Filter(tasks, (t: Task) => Involved(user, t))
  }

  /** `if selected: tasks = tasks.filter(...)`. */
  function FilterIf(selected: bool, tasks: seq<Task>, p: Task -> bool): (r: seq<Task>)
    ensures forall t :: t in r <==> t in tasks && (selected ==> p(t))
  {
    if selected then Filter(tasks, p) else tasks
  }

  /** The four conditional `filter` calls, each skipped when its selection is empty. */
  function Narrow(tasks: seq<Task>, f: Filters): (r: seq<Task>)
    ensures forall t :: t in r <==> t in tasks && PassesFilters(t, f)
  {
    var byTags := FilterIf(f.tags != {}, tasks, (t: Task) => PassesTags(t, f));
    var byStatus := FilterIf(f.status.Some?, byTags, (t: Task) => PassesStatus(t, f));
    var byPriority := FilterIf(f.priority.Some?, byStatus, (t: Task) => PassesPriority(t, f));
    FilterIf(f.assignees != {}, byPriority, (t: Task) => PassesAssignees(t, f))
  }

  /** The listing shown to `user`. */
  function TaskList(rows: seq<Task>, user: UserId, query: Option<string>, f: Filters, rank: Search.Rank): seq<Task>
  {
    Sort(Narrow(Visible(BaseSet(rows, query, rank), user), f), DueBefore)
  }

  lemma DueOrderIsTotal()
    ensures TotalPreorder(DueBefore)
  {
  }

  /** Narrowing keeps exactly the tasks passing every selected filter, as often as before. */
  lemma {:induction false} NarrowKeeps(tasks: seq<Task>, f: Filters)
    ensures forall t :: multiset(Narrow(tasks, f))[t] == if PassesFilters(t, f) then multiset(tasks)[t] else 0
  {
  }

  /** A selection left empty does not narrow anything. */
  lemma NoFilterNoNarrowing(tasks: seq<Task>)
    ensures Narrow(tasks, NoFilters) == tasks
  {
  }

  /** A task is listed iff it is in the base set, the requester created it or is
      assigned to it, and it passes every selected filter; it is listed as often as it
      occurs in the base set. */
  lemma ListedIff(rows: seq<Task>, user: UserId, query: Option<string>, f: Filters, rank: Search.Rank)
    ensures var base := BaseSet(rows, query, rank);
      forall t :: multiset(TaskList(rows, user, query, f, rank))[t] ==
                  if Involved(user, t) && PassesFilters(t, f) then multiset(base)[t] else 0
    ensures forall t :: t in TaskList(rows, user, query, f, rank) <==>
                  t in BaseSet(rows, query, rank) && Involved(user, t) && PassesFilters(t, f)
  {
    var base := BaseSet(rows, query, rank);
    NarrowKeeps(Visible(base, user), f);
    var r := TaskList(rows, user, query, f, rank);
    forall t ensures t in r <==> t in base && Involved(user, t) && PassesFilters(t, f) {
      assert t in r <==> t in multiset(r);
      assert t in base <==> t in multiset(base);
    }
  }

  /** Without a search (no `q`, or an empty one) a task is listed iff it is a row the
      requester created or is assigned to and it passes every selected filter. */
  lemma ListedWithoutQuery(rows: seq<Task>, user: UserId, query: Option<string>, f: Filters, rank: Search.Rank)
    requires query.None? || query == Some("")
    ensures forall t :: t in TaskList(rows, user, query, f, rank) <==>
                  t in rows && Involved(user, t) && PassesFilters(t, f)
  {
    ListedIff(rows, user, query, f, rank);
  }

  /** With an id query a task is listed iff it is the row with that id, the requester
      created it or is assigned to it, and it passes every selected filter. */
  lemma ListedByIdQuery(rows: seq<Task>, user: UserId, q: string, f: Filters, rank: Search.Rank)
    requires Search.IsIdQuery(q)
    ensures forall t :: t in TaskList(rows, user, Some(q), f, rank) <==>
                  t in rows && t.id == Decimal.DigitsValue(q) && Involved(user, t) && PassesFilters(t, f)
  {
    ListedIff(rows, user, Some(q), f, rank);
    Search.IdQueryLookup(rows, q, rank);
  }

  /** With any other non-empty query a task is listed iff it is a row of positive rank,
      the requester created it or is assigned to it, and it passes every selected filter. */
  lemma ListedByRankedQuery(rows: seq<Task>, user: UserId, q: string, f: Filters, rank: Search.Rank)
    requires q != "" && !Search.IsIdQuery(q)
    ensures forall t :: t in TaskList(rows, user, Some(q), f, rank) <==>
                  t in rows && rank(t, q) > 0 && Involved(user, t) && PassesFilters(t, f)
  {
    ListedIff(rows, user, Some(q), f, rank);
    Search.RankedQuery(rows, q, rank);
    var base := BaseSet(rows, Some(q), rank);
    forall t ensures t in base <==> t in rows && rank(t, q) > 0 {
      assert t in base <==> t in multiset(base);
      assert t in rows <==> t in multiset(rows);
    }
  }

  /** The listing is ordered by due date, tasks without one at the end. */
  lemma ListedByDueDate(rows: seq<Task>, user: UserId, query: Option<string>, f: Filters, rank: Search.Rank)
    ensures var r := TaskList(rows, user, query, f, rank);
      forall i, j :: 0 <= i < j < |r| ==> DueBefore(r[i], r[j])
  {
    DueOrderIsTotal();
    SortSorted(Narrow(Visible(BaseSet(rows, query, rank), user), f), DueBefore);
  }

  lemma FilterIfDistinct(selected: bool, tasks: seq<Task>, p: Task -> bool)
    requires DistinctBy(tasks, IdOf)
    ensures DistinctBy(FilterIf(selected, tasks, p), IdOf)
  {
    if selected {
      FilterDistinct(tasks, p, IdOf);
    }
  }

  /** Each filter keeps a subsequence, so unique ids stay unique. */
  lemma NarrowDistinct(tasks: seq<Task>, f: Filters)
    requires DistinctBy(tasks, IdOf)
    ensures DistinctBy(Narrow(tasks, f), IdOf)
  {
    var byTags := FilterIf(f.tags != {}, tasks, (t: Task) => PassesTags(t, f));
    FilterIfDistinct(f.tags != {}, tasks, (t: Task) => PassesTags(t, f));
    var byStatus := FilterIf(f.status.Some?, byTags, (t: Task) => PassesStatus(t, f));
    FilterIfDistinct(f.status.Some?, byTags, (t: Task) => PassesStatus(t, f));
    var byPriority := FilterIf(f.priority.Some?, byStatus, (t: Task) => PassesPriority(t, f));
    FilterIfDistinct(f.priority.Some?, byStatus, (t: Task) => PassesPriority(t, f));
    FilterIfDistinct(f.assignees != {}, byPriority, (t: Task) => PassesAssignees(t, f));
  }

  /** When the table has unique ids, no two listed entries share an id, so every listed
      task appears exactly once. */
  lemma ListedOnce(rows: seq<Task>, user: UserId, query: Option<string>, f: Filters, rank: Search.Rank)
    requires DistinctBy(rows, IdOf)
    ensures DistinctBy(TaskList(rows, user, query, f, rank), IdOf)
    ensures forall t :: t in TaskList(rows, user, query, f, rank) ==>
                        multiset(TaskList(rows, user, query, f, rank))[t] == 1
  {
    var base := BaseSet(rows, query, rank);
    if query.Some? && query.value != "" {
      Search.SearchDistinct(rows, query.value, rank);
    }
    FilterDistinct(base, (t: Task) => Involved(user, t), IdOf);
    NarrowDistinct(Visible(base, user), f);
    SortDistinct(Narrow(Visible(base, user), f), DueBefore, IdOf);
    var r := TaskList(rows, user, query, f, rank);
    forall t | t in r ensures multiset(r)[t] == 1 {
      DistinctByOnce(r, IdOf, t);
    }
  }

  /** A user who neither created nor is assigned to a task never sees it, whatever the
      query and the filters. */
  lemma OutsiderSeesNothing(rows: seq<Task>, user: UserId, query: Option<string>, f: Filters, rank: Search.Rank, t: Task)
    requires user != t.creator && user !in t.assignees
    ensures t !in TaskList(rows, user, query, f, rank)
  {
    ListedIff(rows, user, query, f, rank);
  }
}
