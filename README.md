# Collaboration elements and group membership, modelled in Dafny

This project models the rule-bearing core of the collabl.io community
application: groups whose members run collaborations, and each collaboration's
ordered list of tasks and milestones. It covers four pieces.

- **Group membership** (`memberships.dfy`, module `Memberships`). The Membership table is a
  class holding a sequence of (user, group, status) rows, with status one of
  Admin, Pending, Current or Ignored.
  - Both views answer "not found" for an unknown group and change nothing.
  - Joining refuses when any row exists for the pair. Otherwise it inserts one Pending row.
  - Leaving does nothing for a user without a row. It refuses the group's last Admin.
    Otherwise it deletes exactly the caller's row.
  - The group search leaves out the groups where the user is Current, Admin or Pending.
    Then it optionally keeps only names that contain the query, ignoring case.
  - Headline invariant: every group that had an Admin before a leave still has one after it.
- **The element list** (`elements.dfy`, module `Elements`). The collaboration page chains all
  tasks and then all milestones, and sorts them by position, highest first. The sort is
  Python's stable `sorted(..., reverse=True)`. The model proves four things about the result:
  - it is a permutation of the chained input;
  - its positions never increase;
  - elements at the same position keep their input order;
  - so on a tie, tasks come before milestones.
- **The collaboration views** (`collaboration_views.dfy`, module `CollaborationViews`).
  - Tasks, milestones and collaborations are records in a store class (`CollaborationStore`).
    Each view is a method on that class.
  - In this model every view checks the caller's standing in the group that owns the addressed
    record before it changes anything. Collaboration operations need an Admin row. Element
    operations need a Current or Admin row. The source as written checks the group of the
    collaboration named in the URL, even for an element fetched by primary key from another
    collaboration; the model uses the corrected gate and keeps the as-written one beside it
    (see "## Findings").
  - Completing a task stamps the time and the acting user. Undo clears the time, the user, the
    file and the notes together. Any other status leaves the task unchanged.
  - A move writes the element's position only when the target lies in `[0, number_of_elements)`.
- **The home redirect** (`home.dfy`, module `Home`). It is a three-way decision:
  - an anonymous visitor goes to `landing`;
  - a user with a Current or Admin row goes to `user-group-list`;
  - any other signed-in user goes to `group-search`.

`entities.dfy` (module `Entities`) holds the Collaboration, Task, Milestone and Element records.
`wrappers.dfy` holds `Option`. Two inputs replace parts of the running system:
- The clock (`datetime.now()`) is the parameter `now`.
- The membership rows, which the permission helpers query, are the parameter `members`.

## Model

| member | source | states |
|---|---|---|
| `Memberships.StandingOf` | collabl/groups/views.py:181 | the caller's status in a group is None exactly when no row exists for the pair, and otherwise it is the status of an existing row for the pair |
| `Memberships.IndexOf` | collabl/groups/views.py:181 | the row fetched for (user, group) is one of the pair's rows, the first in table order |
| `Memberships.StandingOfUnique` | collabl/groups/views.py:181 | with one row per pair, the standing is the status of that row |
| `Memberships.PendingRow` | collabl/groups/views.py:141-143 | the row a join request creates belongs to the pair and has status Pending |
| `Memberships.AppendKeepsUnique` | collabl/groups/views.py:131-143 | a join inserts only when the pair has no row, so the table keeps at most one row per (user, group) |
| `Memberships.JoinedStanding` | collabl/groups/views.py:141-143 | after a join, the joiner is Pending in the group and every other (user, group) pair keeps its standing |
| `Memberships.IsLastAdmin` | collabl/groups/views.py:184-189 | the caller's row is the last Admin exactly when it is an Admin row and deleting it would leave its group without any Admin row |
| `Memberships.RemoveAt` | collabl/groups/views.py:202-204 | deleting a row removes exactly that row: the remaining multiset is the old one minus that row |
| `Memberships.RemoveAtKeepsUnique` | collabl/groups/views.py:202-204 | after the delete, the pair has no row left and the table still has one row per pair |
| `Memberships.RemoveKeepsAdmin` | collabl/groups/views.py:184-204 | deleting a row that is not its group's last Admin row keeps at least one Admin in every group that had one |
| `Memberships.MembershipTable.Join` | collabl/groups/views.py:120-156 | an unknown group is not found and nothing changes; a join is refused with the table unchanged when any row for the pair exists, whatever its status; otherwise exactly one Pending row is appended |
| `Memberships.MembershipTable.Leave` | collabl/groups/views.py:159-210 | an unknown group is not found and nothing changes; a leave by a user without a row changes nothing; the last Admin is refused and keeps the row; otherwise exactly the caller's row is deleted; every group with an Admin before still has one after |
| `Memberships.ExcludeJoined` | collabl/groups/views.py:48-56 | a group is kept exactly when it is in the input and the user holds no Current, Admin or Pending row in it |
| `Memberships.ContainsAt` | collabl/groups/views.py:59-60 | the substring test holds exactly when the query occurs in the name at some index |
| `Memberships.EmptyQueryMatchesAll` | collabl/groups/views.py:59-61 | an empty query would match every name, so skipping the filter for an empty query string changes nothing |
| `Memberships.FilterByName` | collabl/groups/views.py:59-60 | a group is kept exactly when its name contains the query, ignoring ASCII case |
| `Memberships.SearchGroups` | collabl/groups/views.py:46-61 | the results are exactly the groups where the user holds no Current, Admin or Pending row and, when a non-empty query is given, whose name contains it, ignoring case |
| `Memberships.IgnoredStillListed` | collabl/groups/views.py:48-56 | a group where the user's only row is Ignored still appears in the search |
| `Memberships.JoinedNeverListed` | collabl/groups/views.py:48-56 | a group where the user is Current, Admin or Pending never appears, whatever the query |
| `Elements.Insert` | dynamo/collaborations/views.py:94-96 | one insertion step of the sort adds exactly the one element: the multiset grows by it |
| `Elements.InsertSorted` | dynamo/collaborations/views.py:94-96 | inserting into a list sorted from the highest position down keeps it sorted |
| `Elements.InsertAtPosition` | dynamo/collaborations/views.py:94-96 | an inserted element goes in front of every element of equal position, which is what makes the sort stable |
| `Elements.SortByPositionDesc` | dynamo/collaborations/views.py:94-96 | the sorted list is a permutation of its input |
| `Elements.SortSorted` | dynamo/collaborations/views.py:94-96 | the sorted list's positions never increase |
| `Elements.SortStable` | dynamo/collaborations/views.py:94-96 | for every position, the elements at that position come out in their input order |
| `Elements.AtPositionAppend` | dynamo/collaborations/views.py:95 | the elements at a position in a chain are those of the first part followed by those of the second |
| `Elements.AllElements` | dynamo/collaborations/views.py:91-97 | the list holds every task and milestone exactly once: a permutation of the chain, with the task count plus the milestone count as its length; positions never increase; nothing is mutated |
| `Elements.AllElementsStable` | dynamo/collaborations/views.py:94-96 | on equal positions, the list shows the tasks in table order, then the milestones in table order |
| `Elements.TasksBeforeMilestonesOnTies` | dynamo/collaborations/views.py:94-96 | no milestone is listed before a task of the same position |
| `Elements.AllElementsListsOtherCollaborations` | dynamo/collaborations/views.py:92-93 | every task in the table is listed on collaboration `c`'s page, including tasks that belong to another collaboration |
| `Elements.TasksOf` | dynamo/collaborations/views.py:92 | the corrected task query: a task is kept exactly when it is in the table and belongs to the collaboration |
| `Elements.MilestonesOf` | dynamo/collaborations/views.py:93 | the corrected milestone query: a milestone is kept exactly when it is in the table and belongs to the collaboration |
| `Elements.ChainMembers` | dynamo/collaborations/views.py:95 | an element is in the chain exactly when its task or milestone is in its table |
| `Elements.CollaborationElements` | dynamo/collaborations/views.py:91-97 | the corrected list: a permutation of the collaboration's own tasks and milestones, with positions that never increase |
| `Elements.CollaborationElementsMembers` | dynamo/collaborations/views.py:91-97 | the corrected list holds exactly the tasks and milestones of the collaboration: none from another one, and none of its own left out |
| `CollaborationViews.Complete` | collabl/collaborations/views_htmx.py:395-398 | completing sets `completed_at` to the supplied time and `completed_by` to the acting user, and no other field changes |
| `CollaborationViews.Undo` | collabl/collaborations/views_htmx.py:399-404 | undo sets `completed_at`, `completed_by`, `file` and `completion_notes` all to None in one step, and no other field changes |
| `CollaborationViews.Toggled` | collabl/collaborations/views_htmx.py:394-406 | complete leaves the task completed by the caller; undo leaves it open; any other status leaves the task unchanged; position and collaboration never change |
| `CollaborationViews.CompletionNotesModal` | collabl/collaborations/views_htmx.py:414-416 | the notes modal is only ever shown for a completed task, and never for a task that does not ask for details on completion |
| `CollaborationViews.ToggleOpensNotesModal` | collabl/collaborations/views_htmx.py:414-416 | after a toggle, the completion-notes modal opens exactly when a completion hits a task flagged to prompt for details; never after undo; other statuses keep the flag's old value |
| `CollaborationViews.UndoAfterComplete` | collabl/collaborations/views_htmx.py:395-404 | undo erases everything a completion recorded |
| `CollaborationViews.MovedPosition` | collabl/collaborations/views_htmx.py:673-675 | the position becomes the target exactly when `0 <= target < number_of_elements` (or it already was the target); out of range it stays as it was |
| `CollaborationViews.ElementAccessAsWritten` | collabl/collaborations/views_htmx.py:664-670 | as written, access is granted exactly when the caller is active in the group of the URL's collaboration, and the element's owner is not looked at |
| `CollaborationViews.ForeignElementGrantedAsWritten` | collabl/collaborations/views_htmx.py:664-670 | on one store, the URL names a collaboration of group 1 and the primary key a task of a collaboration of group 2: as written, a Current member of group 1 only is granted, though that member has no row in the task's group; the corrected `TaskAccess` does not find the task |
| `CollaborationViews.ElementAccess` | collabl/collaborations/views_htmx.py:664-670 | corrected gate: an element of another collaboration is not found; access is granted exactly when the element belongs to the URL's collaboration and the caller is an active member of its group; a caller who is not active is denied |
| `CollaborationViews.AdminOfGroupIsAdminSomewhere` | collabl/collaborations/views_htmx.py:736-750 | `AdminSomewhere` (the caller holds an Admin row in some group): an admin of the chosen group always passes the first check of the user-level create view |
| `CollaborationViews.AdminSomewhereIsAdminOfAGroup` | collabl/collaborations/views_htmx.py:737 | conversely, with one row per pair, a caller with an Admin row somewhere is an admin of some group |
| `CollaborationViews.NewTask` | collabl/collaborations/views_htmx.py:250-253 | a created task belongs to the addressed collaboration, carries the form's name, description, assignee and prompt-for-details flag and the given position, and starts open with no completion data |
| `CollaborationViews.CollaborationStore.CreateCollaboration` | collabl/collaborations/views_htmx.py:36-107 | an unknown group gives NotFound; a non-admin gets Forbidden before anything is saved; a valid POST by an admin adds one collaboration for the group, created by the caller at `now`; otherwise nothing changes |
| `CollaborationViews.CollaborationStore.CreateCollaborationForUser` | collabl/collaborations/views_htmx.py:725-783 | a user with no Admin row anywhere gets the join-or-make-a-group modal; a valid POST for a group the caller does not administer gets Forbidden and saves nothing; otherwise a valid POST creates the collaboration |
| `CollaborationViews.CollaborationStore.UpdateCollaboration` | collabl/collaborations/views_htmx.py:148-186 | a non-admin gets Forbidden and nothing changes; a POST saves the name and description only when the form is valid, and re-renders the header either way |
| `CollaborationViews.CollaborationStore.UpdateCollaborationImage` | collabl/collaborations/views_htmx.py:189-229 | a non-admin gets Forbidden and nothing changes; a POST with a valid form replaces the image |
| `CollaborationViews.CollaborationStore.DeleteCollaboration` | collabl/collaborations/views_htmx.py:110-145 | a non-admin gets Forbidden and nothing is deleted; a GET only shows the confirmation; a POST by an admin removes the collaboration together with its tasks and milestones, and nothing else |
| `CollaborationViews.CollaborationStore.CreateTask` | collabl/collaborations/views_htmx.py:232-276 | a caller who is not an active member gets Forbidden and nothing is saved; a valid POST adds exactly one task built from the form, at the given position, under a fresh key |
| `CollaborationViews.CollaborationStore.TaskAccess` | collabl/collaborations/views_htmx.py:288-297 | corrected gate (see ## Findings): the task is not found unless both it and the URL's collaboration exist and the task belongs to that collaboration; access is granted exactly when the task is found there and the caller is an active member of the task's own group |
| `CollaborationViews.CollaborationStore.UpdateTask` | collabl/collaborations/views_htmx.py:279-324 | corrected gate (see ## Findings): without access nothing changes; a valid POST replaces only the task's form fields |
| `CollaborationViews.CollaborationStore.SaveTaskNotes` | collabl/collaborations/views_htmx.py:327-371 | corrected gate (see ## Findings): without access nothing changes; a valid POST sets only the task's completion notes and file |
| `CollaborationViews.CollaborationStore.ToggleTask` | collabl/collaborations/views_htmx.py:374-422 | an unknown task gives NotFound; a caller who is not an active member gets Forbidden and the task is not toggled; otherwise only that task changes, as the toggle status says, and the response's notes-modal flag is read from the new task |
| `CollaborationViews.CollaborationStore.DeleteTask` | collabl/collaborations/views_htmx.py:425-466 | a caller who is not an active member gets Forbidden and the task is not removed; a POST removes only that task; a GET changes nothing |
| `CollaborationViews.CollaborationStore.MoveTask` | collabl/collaborations/views_htmx.py:653-686 | corrected gate (see ## Findings): without access nothing changes; otherwise only the task's position is written, to the target when it lies in `[0, number_of_elements)` and unchanged otherwise |
| `CollaborationViews.CollaborationStore.CreateMilestone` | collabl/collaborations/views_htmx.py:469-513 | a caller who is not an active member gets Forbidden; a valid POST adds exactly one milestone from the form, at the given position |
| `CollaborationViews.CollaborationStore.MilestoneAccess` | collabl/collaborations/views_htmx.py:525-536 | corrected gate (see ## Findings): the milestone is not found unless both it and the URL's collaboration exist and the milestone belongs to that collaboration; access is granted exactly when the milestone is found there and the caller is an active member of the milestone's own group |
| `CollaborationViews.CollaborationStore.UpdateMilestone` | collabl/collaborations/views_htmx.py:516-563 | corrected gate (see ## Findings): without access nothing changes; a valid POST replaces only the milestone's name and target date |
| `CollaborationViews.CollaborationStore.DeleteMilestone` | collabl/collaborations/views_htmx.py:566-607 | corrected gate (see ## Findings): without access nothing changes; a POST removes only that milestone |
| `CollaborationViews.CollaborationStore.MoveMilestone` | collabl/collaborations/views_htmx.py:689-722 | corrected gate (see ## Findings): without access nothing changes; otherwise an out-of-range target is a no-op and an in-range one becomes the milestone's position |
| `Home.HomepageRedirect` | collabl/collabl/base/views.py:29-41 | an anonymous visitor goes to `landing`; a signed-in user goes to `user-group-list` exactly when they hold a Current or Admin row; every other signed-in user goes to `group-search`; the name is always one of these three |
| `Home.InactiveUserSearches` | collabl/collabl/base/views.py:34-37 | a user whose rows are all Pending or Ignored, or who has none, is sent to `group-search` |
| `Home.JoinKeepsHomeTarget` | collabl/collabl/base/views.py:34-37 | the Pending row a join request adds never changes where the home address sends anyone |

## Left out

- Position bookkeeping is not modelled. It lives in the models' `save()` and `remove()`, in
  collaborations/models.py and collaborations/utils.py, which are not part of this model. That
  bookkeeping gives a new element its position, shifts other elements after a move or a delete,
  and maintains `number_of_elements`. As a result:
  - `CreateTask` and `CreateMilestone` take the new element's position as an input.
  - No method of the store changes `number_of_elements`.
  - The move methods write only the moved element's own position.
  - `DeleteTask` and `DeleteMilestone` remove only the deleted row. They shift no other element's
    position, although the model's own `remove()` does.
- `CollaborationViews.CollaborationStore.CreateCollaborationForUser` records `created_at` as the
  request time `now`. The view itself never writes `created_at` (views_htmx.py:753-755), so this
  assumes the model's default timestamp, which is not part of this model.
- `CollaborationViews.CollaborationStore.CreateCollaboration` and `CreateCollaborationForUser` start
  a collaboration with no image and `number_of_elements` 0. These are assumed defaults of the
  Collaboration model, which is not part of this model.
- The permission helpers `user_has_active_membership` and `user_is_admin` live in
  groups/utils.py, which is not part of this model. They are modelled as predicates over the
  caller's status in the group:
  - `HasActiveMembership` means Current or Admin;
  - `IsAdmin` means Admin.
- `get_membership_level` and `get_filtered_collaborations` are left out. They only feed the
  rendered context.
- Templates, HTMX partials, `messages` notices and redirects are not modelled. They are opaque
  outputs, and the `Response`, `JoinOutcome` and `LeaveOutcome` values stand in for them.
- Django forms and their validation are not modelled. `form.is_valid()` is a boolean input and the
  form's fields are an input record. The form classes live in collaborations/forms.py of this
  version, which is not part of this model.
- Slug generation and slug lookup are not modelled: a slug is identified with the collaboration's
  or group's key.
- `login_required` and `require_http_methods` are not modelled. Every caller is a signed-in user,
  and the decorators reject other HTTP methods before the view runs.
- `int(position)` raises on a non-numeric URL segment after the permission check, without
  mutating anything. The model takes the position as an integer.
- `Memberships.MembershipTable.Leave` reads `user not in group.members.all()` as "the user has no
  Membership row in the group". That holds when `Group.members` is the many-to-many relation through
  the Membership table. The Group model is not part of this model, and the migration
  collabl/groups/migrations/0002_initial.py declares `members` as a plain many-to-many field, which
  no modelled view writes.
- The toggle status strings are constants in collaborations/constants.py, which is not part of
  this model. They appear as the three cases of `ToggleStatus`.
- The clock is an input. Uploaded files are opaque references, with no S3 storage, Celery or email.
- `Memberships.FilterByName` folds ASCII letters only. The database's collation and Unicode case
  folding are not modelled.
- `Memberships.SearchGroups` keeps the table order of its input. The Group model's default ordering
  is not part of this model.
- The `subscribed` flag of a membership and soft deletion are not modelled.
- `CollaborationViews.CollaborationStore.DeleteCollaboration` removes the collaboration's tasks and
  milestones with it. That cascade is assumed from the foreign keys of collaborations/models.py,
  which is not part of this model.
- The chat views, group detail view, settings, URL routing, migrations and admin registrations are
  not modelled. They are plumbing or configuration with no rules.
- Transactions and concurrent requests are not modelled: the model is sequential.

## Findings

| source | as written | input that shows it | evidently intended | confidence | as-written member | corrected member |
|---|---|---|---|---|---|---|
| dynamo/collaborations/views.py:91-97 | `get_all_elements` sorts `CollaborationTask.objects.all()` and `CollaborationMilestone.objects.all()`, so every collaboration's detail page lists the tasks and milestones of all collaborations | tables holding a task of collaboration 2; the page of collaboration 1 lists it | only the shown collaboration's own tasks and milestones, in the same order | not executed; high | `Elements.AllElementsListsOtherCollaborations` | `Elements.CollaborationElementsMembers` |
| collabl/collaborations/views_htmx.py:664-675 | the move view fetches the task by primary key alone and checks the caller's standing in the group of the collaboration named in the URL, not the task's own. The task update, notes, milestone update, milestone delete and milestone move views repeat this lookup (lines 290, 339, 527, 577, 702) | caller Current in group 1 only; URL names a collaboration of group 1; `pk` names a task of a collaboration of group 2; the move is applied | the element must belong to the URL's collaboration (not found otherwise), so the permission checked is the one in the element's own group | not executed; medium | `CollaborationViews.ForeignElementGrantedAsWritten` | `CollaborationViews.ElementAccess` |

The store's update, notes, move and milestone delete methods use the corrected gate through
`TaskAccess` and `MilestoneAccess`. The page's element list is modelled by
`Elements.CollaborationElements`.
