/**
 * The key-value namespace behind the planner. The four key shapes of
 * src/index.ts (`project:list`, `project:{id}`, `project:{id}:todos`,
 * `todo:{id}`) are the constructors of `Key`; values are stored typed
 * instead of JSON-encoded.
 */
module Store {
  import opened Records
  import opened Sequences

  datatype Key =
    | ProjectList            // project:list
    | ProjectRec(id: string) // project:{id}
    | TodoList(pid: string)  // project:{pid}:todos
    | TodoRec(id: string)    // todo:{id}

  datatype Value =
    | Ids(ids: seq<string>)
    | ProjectVal(project: Project)
    | TodoVal(todo: Todo)

  type KV = map<Key, Value>

  /** The value kind each key shape holds; a record's own id is the id in its key. */
  predicate Fits(k: Key, v: Value)
  {
    match k
    case ProjectList => v.Ids?
    case TodoList(_) => v.Ids?
    case ProjectRec(id) => v.ProjectVal? && v.project.id == id
    case TodoRec(id) => v.TodoVal? && v.todo.id == id
  }

  ghost predicate WellFormed(kv: KV)
  {
    forall k :: k in kv ==> Fits(k, kv[k])
  }

  /** The id list stored under an index key; an absent key reads as the empty list. */
  function ListAt(kv: KV, k: Key): seq<string>
    requires WellFormed(kv)
    requires k.ProjectList? || k.TodoList?
  {
    if k in kv then kv[k].ids else []
  }

  /** Ids shaped like `crypto.randomUUID()` output: no ':' and not the word "list". */
  predicate Plain(id: string)
  {
    ':' !in id && id != "list"
  }

  /** An id as `crypto.randomUUID()` yields it: plain, no record under it and in no index. */
  ghost predicate Fresh(kv: KV, id: string)
  {
    && Plain(id)
    && ProjectRec(id) !in kv
    && TodoRec(id) !in kv
    && forall k :: k in kv && kv[k].Ids? ==> id !in kv[k].ids
  }

  /** Every listed id has its record, and a project's todo index lists only that project's todos. */
  ghost predicate Indexed(kv: KV)
    requires WellFormed(kv)
  {
    && (forall id :: id in ListAt(kv, ProjectList) ==> ProjectRec(id) in kv)
    && (forall pid, id :: id in ListAt(kv, TodoList(pid)) ==>
          TodoRec(id) in kv && kv[TodoRec(id)].todo.projectId == pid)
  }

  /** Every record is listed in the index it belongs to. */
  ghost predicate Complete(kv: KV)
    requires WellFormed(kv)
  {
    && (forall id :: ProjectRec(id) in kv ==> id in ListAt(kv, ProjectList))
    && (forall id :: TodoRec(id) in kv ==> id in ListAt(kv, TodoList(kv[TodoRec(id)].todo.projectId)))
  }

  /** No index lists an id twice. */
  ghost predicate Distinct(kv: KV)
  {
    forall k :: k in kv && kv[k].Ids? ==> NoDup(kv[k].ids)
  }

  /** Index consistency: indices and records agree, each record listed exactly once. */
  ghost predicate Consistent(kv: KV)
  {
    WellFormed(kv) && Indexed(kv) && Complete(kv) && Distinct(kv)
  }
}
