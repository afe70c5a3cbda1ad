/**
 * The collaboration views (collabl/collaborations/views_htmx.py): completing
 * and undoing a task; moving a task or a milestone under a range guard; and
 * the create, update and delete views of collaborations, tasks and milestones.
 * In this model every view checks the caller's standing in the group that owns
 * the addressed record before it changes anything; the views that reach an
 * element by primary key use the corrected gate `ElementAccess`, next to the
 * gate as written, `ElementAccessAsWritten`.
 */
module CollaborationViews {
  import opened Wrappers
  import opened Memberships
  import opened Entities

  datatype HttpMethod = Get | Post

  /** The `status` segment of the toggle URL. */
  datatype ToggleStatus = CompleteTask | UndoCompleteTask | OtherStatus

  /** What a view sends back; rendering itself is not modelled. */
  datatype Response =
    | NotFound
    | Forbidden
      // the element list partial; the flag opens the completion-notes modal
    | ElementList(completionNotesModal: bool)
      // a modal holding a form or a confirmation, nothing saved
    | FormModal
      // the modal inviting a user without an Admin row to join or make a group
    | JoinOrMakeGroup
      // the collaboration was created, changed or deleted (redirect or header partial)
    | Done

  // ---------------------------------------------------------------------------
  // Task completion
  // ---------------------------------------------------------------------------

  /** Completing stamps the time and the acting user and changes nothing else. */
  function Complete(t: Task, user: UserId, now: Time): (r: Task)
    ensures r.IsCompleted() && r.completedAt == Some(now) && r.completedBy == Some(user)
    ensures r.(completedAt := t.completedAt, completedBy := t.completedBy) == t
  {
    t.(completedAt := Some(now), completedBy := Some(user))
  }

  /** Undoing clears the time, the user, the file and the notes in one step and changes nothing else. */
  function Undo(t: Task): (r: Task)
    ensures !r.IsCompleted()
    ensures r.completedBy == None && r.file == None && r.completionNotes == None
    ensures r.(completedAt := t.completedAt, completedBy := t.completedBy,
               file := t.file, completionNotes := t.completionNotes) == t
  {
    t.(completedAt := None, completedBy := None, file := None, completionNotes := None)
  }

  /** The task after a toggle request: any status other than the two known ones leaves it as it was. */
  function Toggled(t: Task, status: ToggleStatus, user: UserId, now: Time): (r: Task)
    ensures status == CompleteTask ==> r.IsCompleted() && r.completedBy == Some(user)
    ensures status == UndoCompleteTask ==> !r.IsCompleted() && r.completedBy == None
    ensures status == OtherStatus ==> r == t
    ensures r.position == t.position && r.collaboration == t.collaboration
  {
    match status
    case CompleteTask => Complete(t, user, now)
    case UndoCompleteTask => Undo(t)
    case OtherStatus => t
  }

  /** The template flag of the toggle view: the task is completed and asks for details on completion. */
  predicate CompletionNotesModal(t: Task): (b: bool)
    ensures b ==> t.IsCompleted()
    ensures !t.promptForDetailsOnCompletion ==> !b
  {
    t.completedAt.Some? && t.promptForDetailsOnCompletion
  }

  /** After a toggle the notes modal opens exactly for a completion of a task that asks for details. */
  lemma ToggleOpensNotesModal(t: Task, status: ToggleStatus, user: UserId, now: Time)
    ensures CompletionNotesModal(Toggled(t, status, user, now)) ==
            match status
            case CompleteTask => t.promptForDetailsOnCompletion
            case UndoCompleteTask => false
            case OtherStatus => CompletionNotesModal(t)
  {
  }

  /** Undo erases everything a completion recorded. */
  lemma UndoAfterComplete(t: Task, user: UserId, now: Time)
    ensures Undo(Complete(t, user, now)) == Undo(t)
  {
  }

  // ---------------------------------------------------------------------------
  // Moving
  // ---------------------------------------------------------------------------

  /** The move guard: `0 <= position < number_of_elements`. */
  predicate InRange(position: int, numberOfElements: int) {
    0 <= position < numberOfElements
  }

  /** The position after a move request: the target when in range, otherwise the old position. */
  function MovedPosition(current: int, target: int, numberOfElements: int): (r: int)
    ensures r == target <==> InRange(target, numberOfElements) || target == current
    ensures r != current ==> r == target && InRange(r, numberOfElements)
    ensures !InRange(target, numberOfElements) ==> r == current
  {
    if InRange(target, numberOfElements) then target else current
  }

  // ---------------------------------------------------------------------------
  // The permission gate
  // ---------------------------------------------------------------------------

  datatype Access = Granted | Missing | Denied

  /**
   * As written, the update, notes, move and milestone delete views fetch the
   * element by primary key alone and check the caller's standing in the group
   * of the collaboration named in the URL.
   */
  function ElementAccessAsWritten(members: seq<Membership>, caller: UserId, url: Collaboration): (a: Access)
    ensures a != Missing
    ensures a == Granted <==> HasActiveMembership(StandingOf(members, caller, url.relatedGroup))
  {
    if HasActiveMembership(StandingOf(members, caller, url.relatedGroup)) then Granted else Denied
  }

  /**
   * The gap, on one store: the URL names collaboration 1 of group 1, the
   * primary key names task 5 of collaboration 2 of group 2, and the caller is
   * a Current member of group 1 only. As written the request is granted,
   * although the caller has no row in the task's group; the corrected gate
   * does not find the task in collaboration 1.
   */
  lemma ForeignElementGrantedAsWritten(store: CollaborationStore, t: Task)
    requires store.collaborations == map[1 := Collaboration(1, "mine", "", None, 7, 0, 1),
                                         2 := Collaboration(2, "theirs", "", None, 8, 0, 1)]
    requires store.tasks == map[5 := t] && t.collaboration == 2
    ensures var members := [Membership(7, 1, Current)];
            var owner := store.collaborations[store.tasks[5].collaboration];
            ElementAccessAsWritten(members, 7, store.collaborations[1]) == Granted &&
            !HasActiveMembership(StandingOf(members, 7, owner.relatedGroup)) &&
            store.TaskAccess(members, 7, 1, 5) == Missing
  {
    var members := [Membership(7, 1, Current)];
    assert RowFor(members[0], 7, 1);
  }

  /**
   * The corrected gate: the element must belong to the collaboration in the
   * URL (otherwise it is not found there), and the caller must hold an active
   * membership in that collaboration's group, which is then the element's own group.
   */
  function ElementAccess(members: seq<Membership>, caller: UserId, urlId: CollaborationId,
                         url: Collaboration, owner: CollaborationId): (a: Access)
    ensures a == Missing <==> owner != urlId
    ensures a == Granted <==> owner == urlId && HasActiveMembership(StandingOf(members, caller, url.relatedGroup))
    ensures owner == urlId && !HasActiveMembership(StandingOf(members, caller, url.relatedGroup)) ==> a == Denied
  {
    if owner != urlId then Missing
    else if HasActiveMembership(StandingOf(members, caller, url.relatedGroup)) then Granted
    else Denied
  }

  /** The caller holds an Admin row in some group (`request.user.memberships.filter(status=ADMIN)`). */
  predicate AdminSomewhere(members: seq<Membership>, caller: UserId) {
    exists i :: 0 <= i < |members| && members[i].user == caller && members[i].status == Admin
  }

  lemma AdminOfGroupIsAdminSomewhere(members: seq<Membership>, caller: UserId, group: GroupId)
    requires IsAdmin(StandingOf(members, caller, group))
    ensures AdminSomewhere(members, caller)
  {
    var i :| 0 <= i < |members| && members[i] == Membership(caller, group, Admin);
  }

  /** Conversely, with one row per pair, an Admin row somewhere makes the caller an admin of that row's group. */
  lemma AdminSomewhereIsAdminOfAGroup(members: seq<Membership>, caller: UserId)
    requires UniquePairs(members) && AdminSomewhere(members, caller)
    ensures exists g :: IsAdmin(StandingOf(members, caller, g))
  {
    var i :| 0 <= i < |members| && members[i].user == caller && members[i].status == Admin;
    StandingOfUnique(members, i);
    assert IsAdmin(StandingOf(members, caller, members[i].group));
  }

  // ---------------------------------------------------------------------------
  // Forms (their validation is an input)
  // ---------------------------------------------------------------------------

  datatype CollaborationForm = CollaborationForm(name: string, description: string)
  datatype TaskForm = TaskForm(name: string, description: string, assignedTo: Option<UserId>,
                               promptForDetailsOnCompletion: bool)
  datatype CompletionForm = CompletionForm(completionNotes: Option<string>, file: Option<FileRef>)
  datatype MilestoneForm = MilestoneForm(name: string, targetDate: Time)

  /** A task as created from the form: open, with no completion data. */
  function NewTask(c: CollaborationId, form: TaskForm, position: int): (t: Task)
    ensures !t.IsCompleted() && t.completedBy == None && t.completionNotes == None && t.file == None
    ensures t.collaboration == c && t.position == position
    ensures t.name == form.name && t.description == form.description && t.assignedTo == form.assignedTo
    ensures t.promptForDetailsOnCompletion == form.promptForDetailsOnCompletion
  {
    Task(c, form.name, form.description, form.assignedTo, None, None, None, None,
         form.promptForDetailsOnCompletion, position)
  }

  // ---------------------------------------------------------------------------
  // The store the views act on
  // ---------------------------------------------------------------------------

  /**
   * The Group, Collaboration, CollaborationTask and CollaborationMilestone
   * tables. `nextId` stands for the database's primary key allocation.
   */
  class CollaborationStore {
    var groups: set<GroupId>
    var collaborations: map<CollaborationId, Collaboration>
    var tasks: map<TaskId, Task>
    var milestones: map<MilestoneId, Milestone>
    var nextId: nat

    /** Every row refers to an existing owner, and every key was allocated. */
    ghost predicate Valid()
      reads this
    {
      (forall c :: c in collaborations ==> collaborations[c].relatedGroup in groups && c < nextId) &&
      (forall k :: k in tasks ==> tasks[k].collaboration in collaborations && k < nextId) &&
      (forall k :: k in milestones ==> milestones[k].collaboration in collaborations && k < nextId)
    }

    constructor (groups: set<GroupId>)
      ensures Valid()
      ensures this.groups == groups && collaborations == map[] && tasks == map[] && milestones == map[]
    {
      this.groups := groups;
      collaborations, tasks, milestones := map[], map[], map[];
      nextId := 0;
    }

    /** The caller's standing in the group that owns collaboration `c`. */
    function StandingIn(members: seq<Membership>, caller: UserId, c: CollaborationId): Option<Status>
      reads this
      requires c in collaborations
    {
      StandingOf(members, caller, collaborations[c].relatedGroup)
    }

    // --- collaborations: every change needs an Admin row ---------------------

    /** `group_collaboration_create_view`. */
    method CreateCollaboration(members: seq<Membership>, caller: UserId, group: GroupId,
                               request: HttpMethod, formValid: bool, form: CollaborationForm, now: Time)
      returns (resp: Response, id: CollaborationId)
      requires Valid()
      modifies this
      ensures Valid() && groups == old(groups)
      ensures group !in groups ==> resp == NotFound && unchanged(this)
      ensures group in groups && !IsAdmin(StandingOf(members, caller, group)) ==> resp == Forbidden && unchanged(this)
      ensures group in groups && IsAdmin(StandingOf(members, caller, group)) && !(request == Post && formValid) ==>
                resp == FormModal && unchanged(this)
      ensures group in groups && IsAdmin(StandingOf(members, caller, group)) && request == Post && formValid ==>
                resp == Done && id !in old(collaborations) &&
                collaborations == old(collaborations)[id := Collaboration(group, form.name, form.description, None, caller, now, 0)] &&
                tasks == old(tasks) && milestones == old(milestones)
    {
      id := nextId;
      if group !in groups {
        return NotFound, id;
      }
      if !IsAdmin(StandingOf(members, caller, group)) {
        return Forbidden, id;
      }
      if request == Post && formValid {
        collaborations := collaborations[id := Collaboration(group, form.name, form.description, None, caller, now, 0)];
        nextId := nextId + 1;
        return Done, id;
      }
      return FormModal, id;
    }

    /** `user_collaboration_create_view`: the group is picked in the form. */
    method CreateCollaborationForUser(members: seq<Membership>, caller: UserId, request: HttpMethod,
                                      formValid: bool, group: GroupId, form: CollaborationForm, now: Time)
      returns (resp: Response, id: CollaborationId)
      requires Valid()
      modifies this
      ensures Valid() && groups == old(groups)
      ensures !AdminSomewhere(members, caller) ==> resp == JoinOrMakeGroup && unchanged(this)
      ensures AdminSomewhere(members, caller) && !(request == Post && formValid && group in groups) ==>
                resp == FormModal && unchanged(this)
      ensures AdminSomewhere(members, caller) && request == Post && formValid && group in groups &&
              !IsAdmin(StandingOf(members, caller, group)) ==>
                resp == Forbidden && unchanged(this)
      ensures AdminSomewhere(members, caller) && request == Post && formValid && group in groups &&
              IsAdmin(StandingOf(members, caller, group)) ==>
                resp == Done && id !in old(collaborations) &&
                collaborations == old(collaborations)[id := Collaboration(group, form.name, form.description, None, caller, now, 0)] &&
                tasks == old(tasks) && milestones == old(milestones)
    {
      id := nextId;
      if !AdminSomewhere(members, caller) {
        return JoinOrMakeGroup, id;
      }
      if request == Post && formValid && group in groups {
        if !IsAdmin(StandingOf(members, caller, group)) {
          return Forbidden, id;
        }
        collaborations := collaborations[id := Collaboration(group, form.name, form.description, None, caller, now, 0)];
        nextId := nextId + 1;
        return Done, id;
      }
      return FormModal, id;
    }

    /** `collaboration_update_view`: an invalid form saves nothing but still re-renders the header. */
    method UpdateCollaboration(members: seq<Membership>, caller: UserId, id: CollaborationId,
                               request: HttpMethod, formValid: bool, form: CollaborationForm)
      returns (resp: Response)
      requires Valid()
      modifies this
      ensures Valid()
      ensures id !in old(collaborations) ==> resp == NotFound && unchanged(this)
      ensures id in old(collaborations) && !IsAdmin(old(StandingIn(members, caller, id))) ==>
                resp == Forbidden && unchanged(this)
      ensures id in old(collaborations) && IsAdmin(old(StandingIn(members, caller, id))) ==>
                resp == (if request == Post then Done else FormModal) &&
                groups == old(groups) && tasks == old(tasks) && milestones == old(milestones) && nextId == old(nextId) &&
                collaborations == if request == Post && formValid
                                  then old(collaborations)[id := old(collaborations)[id].(name := form.name, description := form.description)]
                                  else old(collaborations)
    {
      if id !in collaborations {
        return NotFound;
      }
      if !IsAdmin(StandingIn(members, caller, id)) {
        return Forbidden;
      }
      if request == Post {
        if formValid {
          collaborations := collaborations[id := collaborations[id].(name := form.name, description := form.description)];
        }
        return Done;
      }
      return FormModal;
    }

    /** `collaboration_image_view`. */
    method UpdateCollaborationImage(members: seq<Membership>, caller: UserId, id: CollaborationId,
                                    request: HttpMethod, formValid: bool, image: Option<FileRef>)
      returns (resp: Response)
      requires Valid()
      modifies this
      ensures Valid()
      ensures id !in old(collaborations) ==> resp == NotFound && unchanged(this)
      ensures id in old(collaborations) && !IsAdmin(old(StandingIn(members, caller, id))) ==>
                resp == Forbidden && unchanged(this)
      ensures id in old(collaborations) && IsAdmin(old(StandingIn(members, caller, id))) ==>
                resp == (if request == Post then Done else FormModal) &&
                groups == old(groups) && tasks == old(tasks) && milestones == old(milestones) && nextId == old(nextId) &&
                collaborations == if request == Post && formValid
                                  then old(collaborations)[id := old(collaborations)[id].(image := image)]
                                  else old(collaborations)
    {
      if id !in collaborations {
        return NotFound;
      }
      if !IsAdmin(StandingIn(members, caller, id)) {
        return Forbidden;
      }
      if request == Post {
        if formValid {
          collaborations := collaborations[id := collaborations[id].(image := image)];
        }
        return Done;
      }
      return FormModal;
    }

    /** `collaboration_delete_view`: the collaboration goes, and its tasks and milestones with it. */
    method DeleteCollaboration(members: seq<Membership>, caller: UserId, id: CollaborationId, request: HttpMethod)
      returns (resp: Response)
      requires Valid()
      modifies this
      ensures Valid()
      ensures id !in old(collaborations) ==> resp == NotFound && unchanged(this)
      ensures id in old(collaborations) && !IsAdmin(old(StandingIn(members, caller, id))) ==>
                resp == Forbidden && unchanged(this)
      ensures id in old(collaborations) && IsAdmin(old(StandingIn(members, caller, id))) && request == Get ==>
                resp == FormModal && unchanged(this)
      ensures id in old(collaborations) && IsAdmin(old(StandingIn(members, caller, id))) && request == Post ==>
                resp == Done && groups == old(groups) && nextId == old(nextId) &&
                collaborations == old(collaborations) - {id} &&
                (forall k :: k in tasks <==> k in old(tasks) && old(tasks)[k].collaboration != id) &&
                (forall k :: k in tasks ==> tasks[k] == old(tasks)[k]) &&
                (forall k :: k in milestones <==> k in old(milestones) && old(milestones)[k].collaboration != id) &&
                (forall k :: k in milestones ==> milestones[k] == old(milestones)[k])
    {
      if id !in collaborations {
        return NotFound;
      }
      if !IsAdmin(StandingIn(members, caller, id)) {
        return Forbidden;
      }
      if request == Get {
        return FormModal;
      }
      collaborations := collaborations - {id};
      tasks := map k | k in tasks && tasks[k].collaboration != id :: tasks[k];
      milestones := map k | k in milestones && milestones[k].collaboration != id :: milestones[k];
      return Done;
    }

    // --- tasks: every change needs a Current or Admin row --------------------

    /**
     * `collaboration_task_create_view`. The new task's position is assigned by
     * the model's own save, so it is an input here.
     */
    method CreateTask(members: seq<Membership>, caller: UserId, c: CollaborationId,
                      request: HttpMethod, formValid: bool, form: TaskForm, position: int)
      returns (resp: Response, pk: TaskId)
      requires Valid()
      modifies this
      ensures Valid()
      ensures c !in old(collaborations) ==> resp == NotFound && unchanged(this)
      ensures c in old(collaborations) && !HasActiveMembership(old(StandingIn(members, caller, c))) ==>
                resp == Forbidden && unchanged(this)
      ensures c in old(collaborations) && HasActiveMembership(old(StandingIn(members, caller, c))) &&
              !(request == Post && formValid) ==>
                resp == FormModal && unchanged(this)
      ensures c in old(collaborations) && HasActiveMembership(old(StandingIn(members, caller, c))) &&
              request == Post && formValid ==>
                resp == ElementList(false) && pk !in old(tasks) &&
                tasks == old(tasks)[pk := NewTask(c, form, position)] && nextId == old(nextId) + 1 &&
                groups == old(groups) && collaborations == old(collaborations) && milestones == old(milestones)
    {
      pk := nextId;
      if c !in collaborations {
        return NotFound, pk;
      }
      if !HasActiveMembership(StandingIn(members, caller, c)) {
        return Forbidden, pk;
      }
      if request == Post && formValid {
        tasks := tasks[pk := NewTask(c, form, position)];
        nextId := nextId + 1;
        return ElementList(false), pk;
      }
      return FormModal, pk;
    }

    /**
     * The element views addressed by collaboration and primary key: the task
     * must exist and belong to collaboration `c`, and the caller must hold an
     * active membership in `c`'s group.
     */
    function TaskAccess(members: seq<Membership>, caller: UserId, c: CollaborationId, pk: TaskId): (a: Access)
      reads this
      ensures a == Missing <==> c !in collaborations || pk !in tasks || tasks[pk].collaboration != c
      ensures a == Granted <==>
                c in collaborations && pk in tasks && tasks[pk].collaboration == c &&
                HasActiveMembership(StandingOf(members, caller, collaborations[tasks[pk].collaboration].relatedGroup))
    {
      if c !in collaborations || pk !in tasks then Missing
      else ElementAccess(members, caller, c, collaborations[c], tasks[pk].collaboration)
    }

    /** `collaboration_task_update_view`. */
    method UpdateTask(members: seq<Membership>, caller: UserId, c: CollaborationId, pk: TaskId,
                      request: HttpMethod, formValid: bool, form: TaskForm)
      returns (resp: Response)
      requires Valid()
      modifies this
      ensures Valid()
      ensures old(TaskAccess(members, caller, c, pk)) == Missing ==> resp == NotFound && unchanged(this)
      ensures old(TaskAccess(members, caller, c, pk)) == Denied ==> resp == Forbidden && unchanged(this)
      ensures old(TaskAccess(members, caller, c, pk)) == Granted && !(request == Post && formValid) ==>
                resp == FormModal && unchanged(this)
      ensures old(TaskAccess(members, caller, c, pk)) == Granted && request == Post && formValid ==>
                resp == ElementList(false) &&
                tasks == old(tasks)[pk := old(tasks)[pk].(name := form.name, description := form.description,
                                                          assignedTo := form.assignedTo,
                                                          promptForDetailsOnCompletion := form.promptForDetailsOnCompletion)] &&
                groups == old(groups) && collaborations == old(collaborations) && milestones == old(milestones) &&
                nextId == old(nextId)
    {
      var access := TaskAccess(members, caller, c, pk);
      if access == Missing {
        return NotFound;
      }
      if access == Denied {
        return Forbidden;
      }
      if request == Post && formValid {
        tasks := tasks[pk := tasks[pk].(name := form.name, description := form.description,
                                        assignedTo := form.assignedTo,
                                        promptForDetailsOnCompletion := form.promptForDetailsOnCompletion)];
        return ElementList(false);
      }
      return FormModal;
    }

    /** `collaboration_task_notes_view`: record completion notes and a file. */
    method SaveTaskNotes(members: seq<Membership>, caller: UserId, c: CollaborationId, pk: TaskId,
                         request: HttpMethod, formValid: bool, form: CompletionForm)
      returns (resp: Response)
      requires Valid()
      modifies this
      ensures Valid()
      ensures old(TaskAccess(members, caller, c, pk)) == Missing ==> resp == NotFound && unchanged(this)
      ensures old(TaskAccess(members, caller, c, pk)) == Denied ==> resp == Forbidden && unchanged(this)
      ensures old(TaskAccess(members, caller, c, pk)) == Granted && !(request == Post && formValid) ==>
                resp == FormModal && unchanged(this)
      ensures old(TaskAccess(members, caller, c, pk)) == Granted && request == Post && formValid ==>
                resp == ElementList(false) &&
                tasks == old(tasks)[pk := old(tasks)[pk].(completionNotes := form.completionNotes, file := form.file)] &&
                groups == old(groups) && collaborations == old(collaborations) && milestones == old(milestones) &&
                nextId == old(nextId)
    {
      var access := TaskAccess(members, caller, c, pk);
      if access == Missing {
        return NotFound;
      }
      if access == Denied {
        return Forbidden;
      }
      if request == Post && formValid {
        tasks := tasks[pk := tasks[pk].(completionNotes := form.completionNotes, file := form.file)];
        return ElementList(false);
      }
      return FormModal;
    }

    /**
     * `collaboration_task_toggle_view`: the collaboration is the task's own;
     * the clock is the parameter `now`.
     */
    method ToggleTask(members: seq<Membership>, caller: UserId, pk: TaskId, status: ToggleStatus, now: Time)
      returns (resp: Response)
      requires Valid()
      modifies this
      ensures Valid()
      ensures pk !in old(tasks) ==> resp == NotFound && unchanged(this)
      ensures pk in old(tasks) && !HasActiveMembership(old(StandingIn(members, caller, tasks[pk].collaboration))) ==>
                resp == Forbidden && unchanged(this)
      ensures pk in old(tasks) && HasActiveMembership(old(StandingIn(members, caller, tasks[pk].collaboration))) ==>
                tasks == old(tasks)[pk := Toggled(old(tasks)[pk], status, caller, now)] &&
                resp == ElementList(CompletionNotesModal(tasks[pk])) &&
                groups == old(groups) && collaborations == old(collaborations) && milestones == old(milestones) &&
                nextId == old(nextId)
    {
      if pk !in tasks {
        return NotFound;
      }
      if !HasActiveMembership(StandingIn(members, caller, tasks[pk].collaboration)) {
        return Forbidden;
      }
      tasks := tasks[pk := Toggled(tasks[pk], status, caller, now)];
      return ElementList(CompletionNotesModal(tasks[pk]));
    }

    /** `collaboration_task_delete_view`: the collaboration is the task's own. */
    method DeleteTask(members: seq<Membership>, caller: UserId, pk: TaskId, request: HttpMethod)
      returns (resp: Response)
      requires Valid()
      modifies this
      ensures Valid()
      ensures pk !in old(tasks) ==> resp == NotFound && unchanged(this)
      ensures pk in old(tasks) && !HasActiveMembership(old(StandingIn(members, caller, tasks[pk].collaboration))) ==>
                resp == Forbidden && unchanged(this)
      ensures pk in old(tasks) && HasActiveMembership(old(StandingIn(members, caller, tasks[pk].collaboration))) ==>
                resp == (if request == Post then ElementList(false) else FormModal) &&
                tasks == (if request == Post then old(tasks) - {pk} else old(tasks)) &&
                groups == old(groups) && collaborations == old(collaborations) && milestones == old(milestones) &&
                nextId == old(nextId)
    {
      if pk !in tasks {
        return NotFound;
      }
      if !HasActiveMembership(StandingIn(members, caller, tasks[pk].collaboration)) {
        return Forbidden;
      }
      if request == Post {
        tasks := tasks - {pk};
        return ElementList(false);
      }
      return FormModal;
    }

    /**
     * `collaboration_task_move_view`: only the task's own position is written,
     * and only when the target lies in [0, number_of_elements).
     */
    method MoveTask(members: seq<Membership>, caller: UserId, c: CollaborationId, pk: TaskId, position: int)
      returns (resp: Response)
      requires Valid()
      modifies this
      ensures Valid()
      ensures old(TaskAccess(members, caller, c, pk)) == Missing ==> resp == NotFound && unchanged(this)
      ensures old(TaskAccess(members, caller, c, pk)) == Denied ==> resp == Forbidden && unchanged(this)
      ensures old(TaskAccess(members, caller, c, pk)) == Granted ==>
                resp == ElementList(false) &&
                tasks == old(tasks)[pk := old(tasks)[pk].(position := MovedPosition(old(tasks)[pk].position, position,
                                                                                old(collaborations)[c].numberOfElements))] &&
                groups == old(groups) && collaborations == old(collaborations) && milestones == old(milestones) &&
                nextId == old(nextId)
    {
      var access := TaskAccess(members, caller, c, pk);
      if access == Missing {
        return NotFound;
      }
      if access == Denied {
        return Forbidden;
      }
      var n := collaborations[tasks[pk].collaboration].numberOfElements;
      tasks := tasks[pk := tasks[pk].(position := MovedPosition(tasks[pk].position, position, n))];
      return ElementList(false);
    }

    // --- milestones ---------------------------------------------------------

    /**
     * `collaboration_milestone_create_view`. The new milestone's position is
     * assigned by the model's own save, so it is an input here.
     */
    method CreateMilestone(members: seq<Membership>, caller: UserId, c: CollaborationId,
                           request: HttpMethod, formValid: bool, form: MilestoneForm, position: int)
      returns (resp: Response, pk: MilestoneId)
      requires Valid()
      modifies this
      ensures Valid()
      ensures c !in old(collaborations) ==> resp == NotFound && unchanged(this)
      ensures c in old(collaborations) && !HasActiveMembership(old(StandingIn(members, caller, c))) ==>
                resp == Forbidden && unchanged(this)
      ensures c in old(collaborations) && HasActiveMembership(old(StandingIn(members, caller, c))) &&
              !(request == Post && formValid) ==>
                resp == FormModal && unchanged(this)
      ensures c in old(collaborations) && HasActiveMembership(old(StandingIn(members, caller, c))) &&
              request == Post && formValid ==>
                resp == ElementList(false) && pk !in old(milestones) &&
                milestones == old(milestones)[pk := Milestone(c, form.name, form.targetDate, position)] &&
                nextId == old(nextId) + 1 &&
                groups == old(groups) && collaborations == old(collaborations) && tasks == old(tasks)
    {
      pk := nextId;
      if c !in collaborations {
        return NotFound, pk;
      }
      if !HasActiveMembership(StandingIn(members, caller, c)) {
        return Forbidden, pk;
      }
      if request == Post && formValid {
        milestones := milestones[pk := Milestone(c, form.name, form.targetDate, position)];
        nextId := nextId + 1;
        return ElementList(false), pk;
      }
      return FormModal, pk;
    }

    /** The milestone counterpart of `TaskAccess`. */
    function MilestoneAccess(members: seq<Membership>, caller: UserId, c: CollaborationId, pk: MilestoneId): (a: Access)
      reads this
      ensures a == Missing <==> c !in collaborations || pk !in milestones || milestones[pk].collaboration != c
      ensures a == Granted <==>
                c in collaborations && pk in milestones && milestones[pk].collaboration == c &&
                HasActiveMembership(StandingOf(members, caller, collaborations[milestones[pk].collaboration].relatedGroup))
    {
      if c !in collaborations || pk !in milestones then Missing
      else ElementAccess(members, caller, c, collaborations[c], milestones[pk].collaboration)
    }

    /** `collaboration_milestone_update_view`. */
    method UpdateMilestone(members: seq<Membership>, caller: UserId, c: CollaborationId, pk: MilestoneId,
                           request: HttpMethod, formValid: bool, form: MilestoneForm)
      returns (resp: Response)
      requires Valid()
      modifies this
      ensures Valid()
      ensures old(MilestoneAccess(members, caller, c, pk)) == Missing ==> resp == NotFound && unchanged(this)
      ensures old(MilestoneAccess(members, caller, c, pk)) == Denied ==> resp == Forbidden && unchanged(this)
      ensures old(MilestoneAccess(members, caller, c, pk)) == Granted && !(request == Post && formValid) ==>
                resp == FormModal && unchanged(this)
      ensures old(MilestoneAccess(members, caller, c, pk)) == Granted && request == Post && formValid ==>
                resp == ElementList(false) &&
                milestones == old(milestones)[pk := old(milestones)[pk].(name := form.name, targetDate := form.targetDate)] &&
                groups == old(groups) && collaborations == old(collaborations) && tasks == old(tasks) &&
                nextId == old(nextId)
    {
      var access := MilestoneAccess(members, caller, c, pk);
      if access == Missing {
        return NotFound;
      }
      if access == Denied {
        return Forbidden;
      }
      if request == Post && formValid {
        milestones := milestones[pk := milestones[pk].(name := form.name, targetDate := form.targetDate)];
        return ElementList(false);
      }
      return FormModal;
    }

    /** `collaboration_milestone_delete_view`. */
    method DeleteMilestone(members: seq<Membership>, caller: UserId, c: CollaborationId, pk: MilestoneId,
                           request: HttpMethod)
      returns (resp: Response)
      requires Valid()
      modifies this
      ensures Valid()
      ensures old(MilestoneAccess(members, caller, c, pk)) == Missing ==> resp == NotFound && unchanged(this)
      ensures old(MilestoneAccess(members, caller, c, pk)) == Denied ==> resp == Forbidden && unchanged(this)
      ensures old(MilestoneAccess(members, caller, c, pk)) == Granted ==>
                resp == (if request == Post then ElementList(false) else FormModal) &&
                milestones == (if request == Post then old(milestones) - {pk} else old(milestones)) &&
                groups == old(groups) && collaborations == old(collaborations) && tasks == old(tasks) &&
                nextId == old(nextId)
    {
      var access := MilestoneAccess(members, caller, c, pk);
      if access == Missing {
        return NotFound;
      }
      if access == Denied {
        return Forbidden;
      }
      if request == Post {
        milestones := milestones - {pk};
        return ElementList(false);
      }
      return FormModal;
    }

    /** `collaboration_milestone_move_view`: the same guard as for tasks. */
    method MoveMilestone(members: seq<Membership>, caller: UserId, c: CollaborationId, pk: MilestoneId, position: int)
      returns (resp: Response)
      requires Valid()
      modifies this
      ensures Valid()
      ensures old(MilestoneAccess(members, caller, c, pk)) == Missing ==> resp == NotFound && unchanged(this)
      ensures old(MilestoneAccess(members, caller, c, pk)) == Denied ==> resp == Forbidden && unchanged(this)
      ensures old(MilestoneAccess(members, caller, c, pk)) == Granted ==>
                resp == ElementList(false) &&
                milestones == old(milestones)[pk := old(milestones)[pk].(position := MovedPosition(old(milestones)[pk].position, position,
                                                                                            old(collaborations)[c].numberOfElements))] &&
                groups == old(groups) && collaborations == old(collaborations) && tasks == old(tasks) &&
                nextId == old(nextId)
    {
      var access := MilestoneAccess(members, caller, c, pk);
      if access == Missing {
        return NotFound;
      }
      if access == Denied {
        return Forbidden;
      }
      var n := collaborations[milestones[pk].collaboration].numberOfElements;
      milestones := milestones[pk := milestones[pk].(position := MovedPosition(milestones[pk].position, position, n))];
      return ElementList(false);
    }
  }
}
