/** What the route handlers receive and answer: request fields that may be
    left out of a JSON body, and responses, each either a success with its
    JSON body or one of the error outcomes the handlers abort with. */
module Api {
  import opened Models

  /** A key of a JSON request body: left out, or given with a value. */
  datatype Field<T> = Absent | Present(value: T)

  /** `data.get(key, current)`: the given value, or `current` when the key
      is left out. */
  function Patched<T>(f: Field<T>, current: T): (r: T)
    ensures f.Absent? ==> r == current
    ensures f.Present? ==> r == f.value
  {
    match f
    case Absent => current
    case Present(v) => v
  }

  /** Why a request was refused with HTTP 400. */
  datatype Reason =
    | UnknownGroup(requested: Option<int>)  // "Group with id … does not exist"
    | HasSubgroups                          // "Group has subgroups, cannot delete."
    | StorageError                          // "Error creating student: …"

  /** The outcome of a route handler: a success body, or 404, 400 or 409. */
  datatype Response<T> =
    | Ok(body: T)
    | NotFound(id: int)
    | BadRequest(reason: Reason)
    | Conflict(email: string)

  /** `{id, parent_id, name}` */
  datatype GroupRecord = GroupRecord(id: int, parentId: Option<int>, name: string)

  /** `{id, name}` */
  datatype GroupRef = GroupRef(id: int, name: string)

  /** `{id, name, subGroups: [{id, name}, …]}` */
  datatype GroupEntry = GroupEntry(id: int, name: string, subGroups: seq<GroupRef>)

  /** `{id, group_id, name}` */
  datatype StudentRecord = StudentRecord(id: int, groupId: int, name: string)

  /** The body of every successful delete. */
  const DeletedMessage := "Deleted successfully"
}
