# Project planner store — a Dafny model

The system is a small remote-tool server that manages *projects* and their
*todo* items in a key-value store. Records live under `project:{id}` and
`todo:{id}`. Two ordered id lists are kept beside them as indices:
`project:list` holds every project id, and `project:{id}:todos` holds the
todo ids of one project. This model covers the index maintenance of
`src/index.ts`. That covers the two index readers, the `updateTodo` and
`deleteTodo` helpers, and the bodies of the `createProject`,
`get_project_list` and `create_todo` tools.

Layout:

- `records.dfy` (`Records`): the `Project` and `Todo` records, with `Status` and `Priority` as enums.
- `store.dfy` (`Store`): the namespace. The four key shapes are the
  constructors of `Key`. Values are typed instead of JSON-encoded. The
  module also defines the consistency predicates:
  - `Indexed`: every listed id has a record, and a project's todo index lists only that project's todos.
  - `Complete`: every record is listed in its index.
  - `Distinct`: no index repeats an id.
  - `Fresh`: an id shaped like `crypto.randomUUID()` output (no `:`, not `list`), with no record and in no index.
- `sequences.dfy` (`Sequences`): `indexOf` and the one-element `splice`
  against a reference "remove first occurrence".
- `repository.dfy` (`Repository`): the store each writing operation leaves behind, as a function of the store before it. It also holds the listing that `get_project_list` computes, and the lemmas about both.
- `planner.dfy` (`Planner`): the agent as a class. Its field `kv` is the
  store, and each `KV.put` is an assignment to it. `DeleteTodo`,
  `CreateProject`, `ListProjects` and `CreateTodo` are proved against the
  functions of `Repository`. The two readers are proved against `Store.ListAt`,
  and `UpdateTodo` is proved to leave the store as it was.
- `keyencoding.dfy` (`KeyEncoding`): the string spelling of the keys. It shows where that spelling is ambiguous (see Findings).

Three behaviours of src/index.ts are worth stating up front:

- The `deleteTodo` helper rewrites only the index. It does not delete the `todo:{id}` record.
- `createProject` accepts an empty `name`.
- `updateTodo` writes nothing.

## Model

| member | source | states |
|---|---|---|
| Planner.ProjectPlanner.constructor | src/index.ts:31-33 | the agent works on the store it is bound to |
| Planner.ProjectPlanner.GetProjectList | src/index.ts:35-40 | an absent `project:list` reads as `[]`; otherwise the result is exactly the stored list |
| Planner.ProjectPlanner.GetTodoList | src/index.ts:42-46 | an absent `project:{id}:todos` reads as `[]`; otherwise the result is exactly the stored list |
| Planner.ProjectPlanner.UpdateTodo | src/index.ts:54-60 | the whole store is unchanged: the edited list is never put back |
| Planner.ProjectPlanner.DeleteTodo | src/index.ts:62-69 | the new store is `AfterDeleteTodo` of the old one: only the project's index is rewritten, with the first occurrence spliced out |
| Planner.ProjectPlanner.CreateProject | src/index.ts:80-100 | returns the Project with the given id, the name, `description` defaulting to `""` and the two timestamps; the new store is `AfterCreateProject` of the old |
| Planner.ProjectPlanner.ListProjects | src/index.ts:117-125 | returns `ProjectsOf` the stored `project:list`, which is never longer than the list; the method has no write permission on the store |
| Planner.ProjectPlanner.CreateTodo | src/index.ts:146-174 | not-found exactly when no Project record exists, with the source's message and the store unchanged; otherwise a Todo with status pending, priority defaulting to medium, description to `""`, the given projectId, and the store becomes `AfterCreateTodo` |
| Sequences.IndexOf | src/index.ts:64 | -1 exactly when the id is absent; otherwise the position of its first occurrence |
| Sequences.SpliceIsRemoveFirst | src/index.ts:64-66 | splicing one element at `indexOf`, when that is not -1, removes the first occurrence and keeps the remaining ids in their order |
| Sequences.RemoveFirstCounts | src/index.ts:64-66 | exactly one copy of a present id is removed and nothing else; an absent id leaves the list unchanged |
| Sequences.RemoveFirstSubset | src/index.ts:64-66 | the spliced list contains only ids of the original list |
| Sequences.RemoveFirstDistinct | src/index.ts:64-66 | on a duplicate-free list, the result is duplicate-free, no longer contains the id, and contains only ids of the original |
| Repository.AfterCreateProject | src/index.ts:91-100 | the store after `createProject` still holds at every key the value kind that key demands |
| Repository.AfterCreateTodo | src/index.ts:171-174 | the store after `create_todo` still holds at every key the value kind that key demands |
| Repository.AfterDeleteTodo | src/index.ts:62-69 | the store after `deleteTodo` still holds at every key the value kind that key demands |
| Repository.ProjectsOf | src/index.ts:118-125 | the listing is no longer than the index; each listed project is a stored record whose id is in the index |
| Repository.ProjectsOfConcat | src/index.ts:120-125 | walking two lists one after the other gives the two listings one after the other |
| Repository.ListingSkipsMissing | src/index.ts:121-124 | an id without a record contributes nothing to the listing |
| Repository.ListingAllPresent | src/index.ts:120-125 | when every listed id has a record, the listing holds exactly those records, one per id, in index order |
| Repository.ProjectsOfFrame | src/index.ts:121-122 | the listing depends only on the records of the listed ids |
| Repository.CreateProjectWrites | src/index.ts:91-100 | `createProject` stores the record and appends the fresh id at the end of `project:list`. The earlier entries keep their order and the new id occurs exactly once. Only these two keys are written |
| Repository.ListingAfterCreateProject | src/index.ts:91-125 | listing after `createProject` gives the previous listing followed by the new project, which was not in it before |
| Repository.CreateProjectKeepsConsistency | src/index.ts:91-100 | with a fresh id, `createProject` preserves `Indexed`, `Complete` and `Distinct`, each on its own |
| Repository.CreateTodoWrites | src/index.ts:171-174 | `create_todo` stores the todo record and appends the fresh id at the end of its project's index, where it then occurs exactly once; only these two keys are written |
| Repository.CreateTodoKeepsConsistency | src/index.ts:158-174 | with a fresh id, `create_todo` preserves `Indexed`, `Complete` and `Distinct`, each on its own |
| Repository.DeleteTodoWrites | src/index.ts:62-69 | `deleteTodo` always writes the project's index back, as `[]` when it was absent. The list is unchanged when the id is absent and loses one copy of it otherwise. No other key changes, and the todo record stays |
| Repository.DeleteTodoKeepsIndexed | src/index.ts:62-69 | `deleteTodo` preserves `Indexed` and `Distinct`; on a duplicate-free index, the id is no longer listed afterwards |
| Repository.DeleteTodoOrphansRecord | src/index.ts:62-69 | on a consistent store, deleting a todo through the helper leaves its record in place but listed nowhere, so `Complete` no longer holds |
| Repository.CrashWindowProject | src/index.ts:91-100 | after the record put and before the `project:list` put, the store is well-formed and still `Indexed`, but the new project is listed nowhere, so `Complete` fails |
| Repository.CrashWindowTodo | src/index.ts:171-174 | after the todo record put and before the index put, the store is well-formed and still `Indexed`, but the new todo is listed nowhere, so `Complete` fails |
| KeyEncoding.Encode | src/index.ts:36-174 | the key strings built at lines 36, 43, 91, 100, 121, 147, 171 and 174: todo records live under `todo:`, every other key under `project:`; a record key ends in its id, a todo index key is `project:` + id + `:todos` |
| KeyEncoding.ProjectFoundAsWritten | src/index.ts:147-148 | the existence check as written: some stored key is spelled `project:` + projectId; it accepts every project that has a record |
| KeyEncoding.ListIdPassesProjectCheck | src/index.ts:147-148 | as written, project id `"list"` passes the existence check whenever `project:list` exists |
| KeyEncoding.TodoIndexIdPassesProjectCheck | src/index.ts:147-148 | as written, project id `"p:todos"` passes the existence check whenever project `p` has a todo index |
| KeyEncoding.CheckPassesWithoutProject | src/index.ts:147-148 | as written, a store with only `project:list` and no Project record still passes the check for `"list"` |
| KeyEncoding.ProjectCheckExactForPlainIds | src/index.ts:147-148 | for ids without `:` that are not `"list"` (every UUID), the string-key check holds exactly when the Project record exists |
| KeyEncoding.SameKeyIsProjectRec | src/index.ts:147 | for such an id, the only key spelled `project:{id}` is that project's record key |
| KeyEncoding.EncodeInjective | src/index.ts:36-43 | over such ids, no two different keys share a spelling, so the key datatype is faithful to the string keys |

## Left out

- Server construction and tool registration are not modelled. Nor is the text response envelope. `create_todo` returns a `Reply` (`Ok(todo)` or `NotFound(message)`). `createProject` and `get_project_list` have no not-found path and return the record and the list directly.
- Input schema validation is replaced by preconditions. `create_todo` requires a non-empty `title`, and `priority` is the `Priority` enum. `name` and `description` are unconstrained, as in the code.
- `crypto.randomUUID()` becomes an id parameter with the precondition `Fresh`: no record under the id and the id in no index.
- `new Date().toISOString()` becomes two opaque string parameters, `createdAt` and `updatedAt`. The code reads the clock twice, so the model does not assume the two are equal.
- `JSON.stringify` and `JSON.parse` are not modelled. Values are stored typed, and an encode/decode round trip is taken for granted. The code's truthiness tests (`listData ? … : []`, `if (projectData)`) become key membership, because every stored value is non-empty JSON text.
- The model keeps each key's value kind as the invariant `WellFormed`. A store written by other code with values of the wrong kind is not modelled.
- The asynchronous store is modelled as sequential map updates. Concurrent invocations can race on an index's read-modify-write, and that race is not modelled.
- src/index.ts registers only the three tools modelled here: `createProject`, `get_project_list` and `create_todo`. The `updateTodo` and `deleteTodo` helpers have no callers in it.
- A store failure between the two writes of `createProject` (src/index.ts:91, then 100) or of `create_todo` (src/index.ts:171, then 174) is not modelled: each method completes as a whole. `Repository.CrashWindowProject` and `Repository.CrashWindowTodo` describe the store left between the two writes. Every listed id still has its record there, but the new record is listed nowhere.
- The commented-out `addTodo` helper is dead code and is not modelled.
- Planner.ProjectPlanner.CreateTodo: models the intended existence check (is there a Project record?) and not the string-key check as written; see Findings.

## Findings

| source | as written | input that shows it | evidently intended | confidence | as-written member | corrected member |
|---|---|---|---|---|---|---|
| src/index.ts:147-148 | `create_todo` tests whether the string key `project:` + projectId holds a value. With a caller-supplied id, that key can be the index `project:list` or another project's `project:{p}:todos` | projectId `"list"` on a store where `project:list` exists and no project `"list"` does; or `"p:todos"` when project `p` has a todo index. The todo is created under a non-existent project | a todo is created only when a Project record with that id exists | medium; not executed | KeyEncoding.ProjectFoundAsWritten, KeyEncoding.CheckPassesWithoutProject | Planner.ProjectPlanner.CreateTodo |
