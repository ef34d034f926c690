# Task tracker query and permission model

A Dafny model of the core of a small Django task tracker. Users create tasks, assign
them to other users, answer tasks, and managers comment on their subordinates'
answers. The model covers:

- the records (`Task`, `TaskAnswer`, `AnswerComment`), their choice tables,
  defaults and display strings;
- the search resolver `q_search`. A query of one to five digits is a primary-key
  lookup. Any other query is a ranked full-text search.
- the task listing: the search result or all tasks, then only the tasks the
  requester created or is assigned to, then the optional tag, status, priority and
  assignee filters, then ordering by due date;
- the permission checks and the views that change the tables: create, edit, delete
  (cascading to answers and comments), answer, comment, and the per-subordinate
  task listing.

Querysets are modelled as sequences of `Task` values and each queryset method as a
function over them. `Seqs.Filter` is `.filter`. `Seqs.Sort` (a stable insertion sort
by a comparator) is `.order_by`. The tables are a class, `Store.TaskStore`, holding
maps from primary key to row and the next value of each auto-increment key. Its
methods are the views' `form_valid`/`post` bodies. `CreateTask` returns the new key.
The methods that can fail return `Outcome`: `Ok`, `NotFound` (a 404), `Denied` (the
redirect after a failed check) or `Rejected` (a save the database refuses).

Modules: `Wrappers` (Option), `Decimal` (digit strings), `Seqs` (filter, sort,
distinct keys), `Models` (tasks/models.py and the subordinate relation of
users/models.py), `Search` (tasks/utils.py), `Access` (the view permission checks),
`Listing` (`TaskListView.get_queryset`), `Store` (the tables and the state-changing
views).

Behaviour worth knowing:

- An id query with no matching task returns an empty result, not a not-found error.
- An absent or empty `q` means no search. A whitespace-only `q` is a query and goes
  to ranked search.
- After a search, the listing is re-sorted by due date, so the rank order is lost.
  Ties in due date keep the incoming order here, because the sort is stable
  (`Seqs.SortStable`); the database leaves that order open.

Things the code does that are easy to miss:

- Edit at key 0 (`edit/0/`) skips the creator check, because `0` is falsy
  (tasks/views.py:50, 91). The form then inserts a new task without a creator
  (tasks/views.py:71-72). PostgreSQL draws the next task key for that row before it
  refuses the missing creator, and a drawn key is never given back. `EditTask` returns
  `Rejected` in this case and advances the next task key, so the next created task
  skips one key.
- The subordinate view never checks that the requester manages the subordinate:
  `SubordinateTasks` has no requester parameter.
- tasks/urls.py:2 imports a `CreateOrEditTaskView` that tasks/views.py does not
  define. Routing is not part of this model.

## Model

| member | source | states |
|---|---|---|
| Decimal.DigitsValue | tasks/utils.py:9 | `int(query)` of a digit string is a natural number below 10 to the power of its length |
| Decimal.DecimalString | tasks/models.py:39 | `str(n)` is a digit string with no leading zero (used when a status value has no label) |
| Decimal.LeadingZeroIgnored | tasks/utils.py:9 | a leading zero does not change `int(s)` |
| Decimal.DecimalRoundTrip | tasks/models.py:39 | `int(str(n)) == n` |
| Decimal.DecimalLength | tasks/utils.py:8 | a number below 10^k has at most k decimal digits |
| Seqs.Filter | tasks/views.py:137-153 | `.filter` keeps exactly the rows satisfying the condition, each as often as before and never more rows |
| Seqs.FilterAll | tasks/views.py:146-153 | a filter every row passes leaves the rows unchanged |
| Seqs.FilterFilter | tasks/views.py:146-153 | two chained filters equal one filter on the conjunction |
| Seqs.Insert | tasks/views.py:155 | inserting adds exactly one element to the multiset |
| Seqs.Sort | tasks/views.py:155 | `.order_by` returns a permutation of its input |
| Seqs.InsertSorted | tasks/views.py:155 | insertion into a sorted sequence keeps it sorted for a total preorder |
| Seqs.SortSorted | tasks/views.py:155 | the sorted result is ordered by the comparator |
| Seqs.InsertStable | tasks/views.py:155 | an inserted element goes before every element ranked equal to it, and the others keep their order |
| Seqs.SortStable | tasks/views.py:155 | sorting is stable: the elements ranked equal to any given one come out in the order they went in |
| Seqs.DistinctByOnce | tasks/views.py:137 | with pairwise different ids every element occurs exactly once (`.distinct()`) |
| Seqs.AtMostOneWithKey | tasks/utils.py:9 | with pairwise different ids at most one row carries a given id |
| Seqs.FilterIncreasing | tasks/views.py:271 | filtering keeps ids strictly increasing |
| Seqs.FilterDistinct | tasks/views.py:137 | filtering keeps ids pairwise different |
| Seqs.InsertDistinct | tasks/views.py:155 | inserting a row with a fresh id keeps ids pairwise different |
| Seqs.SortDistinct | tasks/views.py:155 | sorting keeps ids pairwise different |
| Models.Lookup | tasks/models.py:42 | `dict(table).get(key)` finds a value iff some pair has the key, and returns the value of the last such pair |
| Models.ChoiceValues | tasks/models.py:15-25 | the allowed values are exactly the keys that lookup finds |
| Models.PriorityDisplay | tasks/models.py:41-42 | `get_priority_display`; its labels are stated by `PriorityDisplayLabels` |
| Models.StatusDisplay | tasks/models.py:15-19 | `get_status_display`; its labels are stated by `StatusDisplayLabels` |
| Models.TaskString | tasks/models.py:38-39 | `Task.__str__`; `TaskStringDetermines` states that it determines the title and status |
| Models.DefaultTask | tasks/models.py:27-36 | a task built from only the required fields; its defaults are stated by `DefaultTaskFields` |
| Models.WellFormedValues | tasks/models.py:15-30 | a valid task has status in {2, 1, 0} and priority in {0, 1, 2}, and conversely |
| Models.PriorityDisplayLabels | tasks/models.py:41-42 | priorities 0, 1 and 2 show 'Низкий', 'Средний' and 'Высокий'; any other value shows 'Неизвестно' |
| Models.StatusDisplayLabels | tasks/models.py:15-19 | statuses 2, 1 and 0 show their labels; any other value shows its own decimal digits |
| Models.TaskStringDetermines | tasks/models.py:38-39 | for tasks with valid choices, equal `str(task)` strings mean equal titles and equal statuses: the string form tells the title and the status apart |
| Models.DefaultTaskFields | tasks/models.py:27-36 | a task given only title and creator has status New, priority Low, no description, no due date, no assignees and no tags, and a valid choice on both fields |
| Search.QSearch | tasks/utils.py:7-21 | `q_search` returns rows of the table and never more rows than the table has. Its two branches are stated by `IdQueryLookup` and `RankedQuery` |
| Search.Ranked | tasks/utils.py:10-21 | the ranked branch returns exactly the rows of positive rank; multiplicity and order are stated by `RankedQuery` |
| Search.RankOrderIsTotal | tasks/utils.py:12 | ordering by descending rank is a total preorder |
| Search.IdQueryLookup | tasks/utils.py:8-9 | a 1-5 digit query returns exactly the rows whose id is its value, whatever their text or rank. With unique ids that is at most one row, and it is empty when no row has that id |
| Search.LeadingZeroQuery | tasks/utils.py:8-9 | "0" followed by a query of at most four digits is itself an id query, and it returns the same result ("007" finds id 7) |
| Search.DecimalIdQuery | tasks/utils.py:8-9 | searching for the decimal form of an id below 100000 returns exactly the rows with that id |
| Search.RankedQuery | tasks/utils.py:8-21 | a query with a non-digit, or of six or more digits, returns exactly the rows of positive rank, each as often as in the table, in non-increasing rank order; the headline annotations add and remove no rows |
| Search.SearchDistinct | tasks/utils.py:7-21 | both branches return rows of the table, and unique ids stay unique |
| Listing.DueBefore | tasks/views.py:155 | `order_by('due_date')` with nulls last; `DueOrderIsTotal` states that it is a total preorder |
| Listing.BaseSet | tasks/views.py:132-134 | the base set is drawn from the rows and is never larger. Each case is stated by `ListedWithoutQuery`, `ListedByIdQuery` and `ListedByRankedQuery` |
| Listing.Visible | tasks/views.py:137 | keeps exactly the tasks the requester created or is assigned to |
| Listing.FilterIf | tasks/views.py:146-153 | a selected filter keeps exactly the rows passing it, and an unselected one keeps every row |
| Listing.Narrow | tasks/views.py:146-153 | a task survives the four filters iff it passes every selected one; multiplicity is stated by `NarrowKeeps` |
| Listing.TaskList | tasks/views.py:127-155 | `get_queryset`; stated by `ListedIff`, `ListedByDueDate`, `ListedOnce` and `OutsiderSeesNothing` |
| Listing.DueOrderIsTotal | tasks/views.py:155 | ordering by due date, with no date last, is a total preorder |
| Listing.NarrowKeeps | tasks/views.py:146-153 | the four filters together keep exactly the tasks passing each selected filter (any shared tag, equal status, equal priority, any shared assignee), with multiplicity |
| Listing.NoFilterNoNarrowing | tasks/views.py:146-153 | with no selection the filters leave the tasks unchanged |
| Listing.ListedIff | tasks/views.py:134-155 | a task is listed iff it is in the base set, the requester is its creator or an assignee, and it passes every selected filter; it is listed as often as it occurs in the base set |
| Listing.ListedWithoutQuery | tasks/views.py:132-155 | with no `q` or an empty one, a task is listed iff it is a row, the requester is its creator or an assignee, and it passes every selected filter |
| Listing.ListedByIdQuery | tasks/views.py:132-155 | with a query of one to five digits, a task is listed iff it is the row whose id the query spells, the requester is its creator or an assignee, and it passes every selected filter |
| Listing.ListedByRankedQuery | tasks/views.py:132-155 | with any other non-empty query, a task is listed iff it is a row of positive rank, the requester is its creator or an assignee, and it passes every selected filter |
| Listing.ListedByDueDate | tasks/views.py:155 | the listing is sorted non-decreasing by due date, tasks without one last |
| Listing.FilterIfDistinct | tasks/views.py:146-153 | a filter applied only when its selection is non-empty keeps ids unique |
| Listing.NarrowDistinct | tasks/views.py:146-153 | the filter chain keeps ids unique |
| Listing.ListedOnce | tasks/views.py:137-155 | over a table with unique ids, no two listed entries share an id and every listed task appears exactly once |
| Listing.OutsiderSeesNothing | tasks/views.py:137 | a user who is neither creator nor assignee never sees the task, whatever the query and filters |
| Access.Involved | tasks/views.py:207 | the answer check, which is also the listing restriction on tasks/views.py:137; stated by `AddAnswer`, `Visible` and `OutsiderSeesNothing` |
| Access.IsCreator | tasks/views.py:52 | the edit check, which is also the delete check on tasks/views.py:110; stated by `EditTask` and `DeleteTask` |
| Access.CanComment | tasks/views.py:238 | the comment check; stated by `AddComment` and `CommentNeedsDirectManager` |
| Access.CommentNeedsDirectManager | tasks/views.py:237-239 | there is a subordinate relation (built as in users/models.py:12-18) in which A manages B and B may comment on an answer, but A, B's manager, may not, and B does not manage A: the check uses the direct edge only, and the edge has a direction |
| Store.StoreTask | tasks/views.py:28-30 | saving a valid task row under its own key keeps the task and answer tables intact |
| Store.AnswersKept | tasks/models.py:46 | the answers left after a task is deleted; stated by `CascadeAnswers` |
| Store.CommentsKept | tasks/models.py:57 | the comments left after a task is deleted; stated by `CascadeComments` |
| Store.CascadeAnswers | tasks/models.py:46 | deleting a task removes exactly its answers; the rest are unchanged and still point at existing tasks |
| Store.CascadeComments | tasks/models.py:57 | deleting a task removes exactly the comments on its answers; the rest are unchanged and still point at remaining answers and direct managers |
| Store.Rows | tasks/views.py:271 | the table read in key order holds exactly the stored rows |
| Store.RowsIncreasing | tasks/views.py:271 | that reading has strictly increasing ids within the key range |
| Store.AssignedTo | tasks/views.py:271 | the tasks assigned to the subordinate; stated by `AssignedEntries` |
| Store.FirstAnswer | tasks/views.py:276 | `.first()` finds the smallest key whose answer is by that user to that task, and finds nothing only when no such answer exists |
| Store.TaskStore.AnswerOf | tasks/views.py:276 | an answer found is a stored answer by that user to that task. Finding none means no stored answer below the next answer key is by that user to that task |
| Store.TaskStore.CreateTask | tasks/views.py:23-32 | the new task gets the next key, the form's fields and the requester as creator; nothing else changes and the invariant holds |
| Store.TaskStore.EditTask | tasks/views.py:45-93 | key 0 is rejected: no table changes, but the refused insert uses up the next task key. A missing task is not found and a non-creator is denied, both leaving the store unchanged. The creator's edit replaces the form fields and keeps the key and creator |
| Store.TaskStore.DeleteTask | tasks/views.py:103-119 | a missing task is not found and a non-creator is denied, both leaving the store unchanged; the creator's delete removes the task, its answers and their comments |
| Store.TaskStore.AddAnswer | tasks/views.py:202-217 | answering is denied unless the requester is the creator or an assignee; the saved answer records that task and the requester under the next key |
| Store.TaskStore.AddComment | tasks/views.py:234-246 | commenting is denied unless the answer's author is a direct subordinate of the requester; the saved comment records the answer and the requester as manager |
| Store.TaskStore.SubordinateTasks | tasks/views.py:264-281 | an unknown subordinate is not found. Otherwise there is one entry per task assigned to the subordinate, in row order, each paired with the subordinate's first answer to it or none |
| Store.TaskStore.RowsAreTable | tasks/views.py:134 | `Task.objects.all()` of a valid store holds exactly the stored tasks, with unique ids |
| Store.TaskStore.AssignedEntries | tasks/views.py:271 | the subordinate's tasks are exactly the stored tasks assigned to them, in strictly increasing id order |

## Left out

- Full-text ranking and highlighting run inside PostgreSQL (`SearchVector`, `SearchRank`, `SearchHeadline`). The rank is a parameter `rank: (Task, string) -> int`, and the headline strings are dropped.
- Search.IsIdQuery: Python's `isdigit` also accepts non-ASCII digits, and the model accepts only '0' to '9'. In the source, a query like '²' passes `isdigit`, but `int('²')` raises, so `q_search` fails with a server error. A query like '٤٢' (Arabic-Indic digits) looks up id 42. The model sends both queries to ranked search.
- Null due dates: PostgreSQL puts NULLs last in an ascending sort, and the model follows that. The order of tasks with equal due dates is left open by the database. The model keeps their incoming order.
- Unordered querysets in the subordinate view. The database does not fix the row order of `Task.objects.filter(assignees=...)`, so the model reads rows in primary-key order. `.first()` orders by primary key, as Django does.
- Django view machinery: redirects, `messages`, templates, `get_context_data`, the login requirement, anonymous users, GET requests that only display a form, and converting GET strings to integers (a non-numeric filter value raises an error there). Filter selections arrive as integers.
- Form validation. `FieldsValid` states what a valid `TaskForm` guarantees: listed choice values and existing assignees. A title that is required and at most 255 characters long is not modelled. `TaskForm` limits assignees to the user's subordinates only when given a `user` argument, and no view passes one, so the model has no such limit.
- `TaskAnswer.__str__` and `AnswerComment.__str__` need user names, which are not modelled.
- The `Tag` entity, answer file uploads, profile images and the `created_at`/`updated_at` timestamps.
- Deleting users, which would cascade to their tasks, answers and comments: no view in this core deletes users. Users and the subordinate relation are fixed in `TaskStore`.
- TaskDetailView, the users views (login, registration, profile; `get_user_tasks` is the same creator-or-assignee filter as `Access.Involved`), create_superuser.py and the URL configuration.
- Transactions and concurrent requests: each method is one atomic request.
