/**
 * The task entity, the request body that creates or updates one, and the
 * outcomes the controller actions turn into HTTP responses.
 */
module Tasks {

  datatype Option<+T> = None | Some(value: T)

  /** A point in time (a DateTime), kept as an opaque tick count. */
  datatype Date = Date(ticks: int)

  /**
   * A stored task. `owner` is the user name of the IdentityUser the task
   * belongs to; `id` is assigned by the store; `createdAt` is set once.
   */
  datatype TaskItem = TaskItem(
    id: int,
    taskName: string,
    taskDescription: string,
    taskDate: Date,
    taskStatus: string,
    taskTags: string,
    taskType: string,
    createdAt: Date,
    owner: string)

  /** The six client-supplied fields of a create or update request. */
  datatype TaskRequest = TaskRequest(
    taskName: string,
    taskDescription: string,
    taskDate: Date,
    taskStatus: string,
    taskTags: string,
    taskType: string)

  /**
   * An action's outcome: 200 with a payload, 404, or the error the
   * controller reports for a missing body or id (HTTP 500 there).
   */
  datatype Response<+T> = Ok(value: T) | NotFound | BadInput

  /** The six request fields of `t` are exactly those of `m`. */
  predicate CarriesRequest(t: TaskItem, m: TaskRequest) {
    && t.taskName == m.taskName
    && t.taskDescription == m.taskDescription
    && t.taskDate == m.taskDate
    && t.taskStatus == m.taskStatus
    && t.taskTags == m.taskTags
    && t.taskType == m.taskType
  }

  /** The record Post builds: request fields copied, creation time and owner from the server side. */
  function FromRequest(id: int, m: TaskRequest, now: Date, owner: string): (t: TaskItem)
    ensures CarriesRequest(t, m)
    ensures t.id == id && t.createdAt == now && t.owner == owner
  {
    TaskItem(id, m.taskName, m.taskDescription, m.taskDate, m.taskStatus,
             m.taskTags, m.taskType, now, owner)
  }

  /** The record Put leaves behind: the six request fields overwritten, nothing else touched. */
  function Overwrite(t: TaskItem, m: TaskRequest): (u: TaskItem)
    ensures CarriesRequest(u, m)
    ensures u.id == t.id && u.createdAt == t.createdAt && u.owner == t.owner
  {
    t.(taskName := m.taskName, taskDescription := m.taskDescription,
       taskDate := m.taskDate, taskStatus := m.taskStatus,
       taskTags := m.taskTags, taskType := m.taskType)
  }
}
