/** The two entity kinds the planner persists. */
module Records {

  datatype Status = Pending | InProgress | Completed

  datatype Priority = Low | Medium | High

  /** A project; `createdAt` and `updatedAt` are ISO-8601 strings kept opaque here. */
  datatype Project = Project(
    id: string,
    name: string,
    description: string,
    createdAt: string,
    updatedAt: string)

  /** A todo item belonging to the project `projectId`. */
  datatype Todo = Todo(
    id: string,
    projectId: string,
    title: string,
    description: string,
    status: Status,
    priority: Priority,
    createdAt: string,
    updatedAt: string)
}
