/**
 * The planner agent: its key-value binding as a mutable map, the private
 * index helpers, and the bodies of the `createProject`, `get_project_list`
 * and `create_todo` tools. Every `KV.put` is one assignment to `kv`.
 */
module Planner {
  import opened Wrappers
  import opened Records
  import opened Sequences
  import opened Store
  import opened Repository

  /** What a tool handler hands back before it is framed as a text response. */
  datatype Reply<T> = Ok(value: T) | NotFound(message: string)

  function ProjectNotFound(projectId: string): string
  {
    "Project with ID " + projectId + " not found"
  }

  class ProjectPlanner {
    var kv: KV

    ghost predicate Valid()
      reads this
    {
      WellFormed(kv)
    }

    /** Binds the agent to an existing store. */
    constructor (store: KV)
      requires WellFormed(store)
      ensures Valid() && kv == store
    {
      kv := store;
    }

    /** `getProjectList`: the ids under `project:list`, or `[]` when the key is absent. */
    method GetProjectList() returns (ids: seq<string>)
      requires Valid()
      ensures ProjectList !in kv ==> ids == []
      ensures ProjectList in kv ==> kv[ProjectList] == Ids(ids)
      ensures ids == ListAt(kv, ProjectList)
    {
      if ProjectList in kv {
        ids := kv[ProjectList].ids;
      } else {
        ids := [];
      }
    }

    /** `getTodoList`: the ids under `project:{projectId}:todos`, or `[]` when the key is absent. */
    method GetTodoList(projectId: string) returns (ids: seq<string>)
      requires Valid()
      ensures TodoList(projectId) !in kv ==> ids == []
      ensures TodoList(projectId) in kv ==> kv[TodoList(projectId)] == Ids(ids)
      ensures ids == ListAt(kv, TodoList(projectId))
    {
      var k := TodoList(projectId);
      if k in kv {
        ids := kv[k].ids;
      } else {
        ids := [];
      }
    }

    /** `updateTodo`: edits a local copy of the index and never writes it back. */
    method UpdateTodo(projectId: string, todoId: string, todo: Todo)
      requires Valid()
      ensures kv == old(kv)
    {
      var todoList := GetTodoList(projectId);
      var index := IndexOf(todoList, todoId);
      if index != -1 {
        todoList := todoList[index := todo.id];
      }
    }

    /** `deleteTodo`: splices the first occurrence of `todoId` out of the project's index and writes it back. */
    method DeleteTodo(projectId: string, todoId: string)
      requires Valid()
      modifies this
      ensures Valid()
      ensures kv == AfterDeleteTodo(old(kv), projectId, todoId)
    {
      var todoList := GetTodoList(projectId);
      var index := IndexOf(todoList, todoId);
      SpliceIsRemoveFirst(todoList, todoId);
      if index != -1 {
        todoList := todoList[..index] + todoList[index + 1..];
      }
      kv := kv[TodoList(projectId) := Ids(todoList)];
    }

    /**
     * The `createProject` tool. `id` stands for `crypto.randomUUID()`;
     * `createdAt` and `updatedAt` for the two separate clock reads.
     */
    method CreateProject(id: string, name: string, description: Option<string>,
                         createdAt: string, updatedAt: string) returns (project: Project)
      requires Valid()
      requires Fresh(kv, id)
      modifies this
      ensures Valid()
      ensures project == Project(id, name, description.GetOr(""), createdAt, updatedAt)
      ensures kv == AfterCreateProject(old(kv), project)
    {
      project := Project(id, name, description.GetOr(""), createdAt, updatedAt);
      kv := kv[ProjectRec(project.id) := ProjectVal(project)];
      var projectList := GetProjectList();
      projectList := projectList + [id];
      kv := kv[ProjectList := Ids(projectList)];
    }

    /** The `get_project_list` tool: walks `project:list` in order, skipping ids without a record. */
    method ListProjects() returns (projects: seq<Project>)
      requires Valid()
      ensures projects == ProjectsOf(kv, ListAt(kv, ProjectList))
      ensures |projects| <= |ListAt(kv, ProjectList)|
    {
      var projectList := GetProjectList();
      projects := [];
      for i := 0 to |projectList|
        invariant projects == ProjectsOf(kv, projectList[..i])
      {
        assert projectList[..i + 1][..i] == projectList[..i];
        var key := ProjectRec(projectList[i]);
        if key in kv {
          projects := projects + [kv[key].project];
        }
      }
      assert projectList[..|projectList|] == projectList;
    }

    /**
     * The `create_todo` tool. `todoId` stands for `crypto.randomUUID()`;
     * `title` is non-empty and `priority` one of the enum, as the tool's
     * input schema enforces.
     */
    method CreateTodo(todoId: string, projectId: string, title: string,
                      description: Option<string>, priority: Option<Priority>,
                      createdAt: string, updatedAt: string) returns (r: Reply<Todo>)
      requires Valid()
      requires |title| >= 1
      requires Fresh(kv, todoId)
      modifies this
      ensures Valid()
      ensures r.NotFound? <==> ProjectRec(projectId) !in old(kv)
      ensures r.NotFound? ==> r.message == ProjectNotFound(projectId) && kv == old(kv)
      ensures r.Ok? ==>
                && r.value == Todo(todoId, projectId, title, description.GetOr(""),
                                   Pending, priority.GetOr(Medium), createdAt, updatedAt)
                && kv == AfterCreateTodo(old(kv), r.value)
    {
      if ProjectRec(projectId) !in kv {
        return NotFound(ProjectNotFound(projectId));
      }
      var todo := Todo(todoId, projectId, title, description.GetOr(""),
                       Pending, priority.GetOr(Medium), createdAt, updatedAt);
      kv := kv[TodoRec(todoId) := TodoVal(todo)];
      var todoList := GetTodoList(projectId);
      todoList := todoList + [todoId];
      kv := kv[TodoList(projectId) := Ids(todoList)];
      r := Ok(todo);
    }
  }
}
