/** The rows of the `tasks` and `lists` tables. Ids are uuids, as numbers; instants are
    microseconds since 1970-01-01T00:00Z. */
module Schema {
  import opened Wrappers

  datatype Priority = NoPriority | Low | Medium | High

  datatype Task = Task(
    id: nat,
    owner: nat,
    list: nat,
    title: string,
    completedAt: Option<int>,
    deletedAt: Option<int>,
    createdAt: int,
    updatedAt: int,
    dueAt: Option<int>,
    priority: Priority,
    position: int)

  datatype TaskList = TaskList(
    id: nat,
    owner: nat,
    name: string,
    isDefault: bool,
    position: int,
    createdAt: int,
    updatedAt: int)

  /** A table, each row under its own id. */
  type TaskTable = m: map<nat, Task> | forall id | id in m :: m[id].id == id

  type ListTable = m: map<nat, TaskList> | forall id | id in m :: m[id].id == id
}
