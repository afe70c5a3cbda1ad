/**
 * The records the collaboration views read and write. Their Django models
 * (collaborations/models.py) are not part of this model; the fields are those
 * the views and the migrations use.
 */
module Entities {
  import opened Wrappers
  import Memberships

  type UserId = Memberships.UserId
  type GroupId = Memberships.GroupId
  type CollaborationId = nat
  type TaskId = nat
  type MilestoneId = nat

  /** A timestamp, supplied by the caller in place of `datetime.now()`. */
  type Time = int

  /** A reference to an uploaded file (the storage backend is not modelled). */
  type FileRef = string

  /** A group-owned project whose tasks and milestones share one position space. */
  datatype Collaboration = Collaboration(
    relatedGroup: GroupId,
    name: string,
    description: string,
    image: Option<FileRef>,
    createdBy: UserId,
    createdAt: Time,
    numberOfElements: int)

  /** A task; it is completed exactly when `completedAt` is set. */
  datatype Task = Task(
    collaboration: CollaborationId,
    name: string,
    description: string,
    assignedTo: Option<UserId>,
    completedAt: Option<Time>,
    completedBy: Option<UserId>,
    completionNotes: Option<string>,
    file: Option<FileRef>,
    promptForDetailsOnCompletion: bool,
    position: int)
  {
    predicate IsCompleted() { completedAt.Some? }
  }

  /** A milestone, positioned among the tasks of its collaboration. */
  datatype Milestone = Milestone(
    collaboration: CollaborationId,
    name: string,
    targetDate: Time,
    position: int)

  /** One entry of a collaboration's element list: a task or a milestone. */
  datatype Element = TaskElement(task: Task) | MilestoneElement(milestone: Milestone)
  {
    function Position(): int {
      match this
      case TaskElement(t) => t.position
      case MilestoneElement(m) => m.position
    }

    function Owner(): CollaborationId {
      match this
      case TaskElement(t) => t.collaboration
      case MilestoneElement(m) => m.collaboration
    }
  }
}
