/**
 * What each store-changing operation of the planner leaves behind, as a
 * function of the store before it, and the properties of those effects:
 * which keys they write, how the indices change, and which parts of index
 * consistency they keep.
 */
module Repository {
  import opened Records
  import opened Sequences
  import opened Store

  /** Store after `createProject`: the record is put, then its id is appended to `project:list`. */
  function AfterCreateProject(kv: KV, p: Project): (r: KV)
    requires WellFormed(kv)
    ensures WellFormed(r)
  {
    kv[ProjectRec(p.id) := ProjectVal(p)][ProjectList := Ids(ListAt(kv, ProjectList) + [p.id])]
  }

  /** Store after `create_todo` on an existing project: the record is put, then its id appended to the project's index. */
  function AfterCreateTodo(kv: KV, t: Todo): (r: KV)
    requires WellFormed(kv)
    ensures WellFormed(r)
  {
    var k := TodoList(t.projectId);
    kv[TodoRec(t.id) := TodoVal(t)][k := Ids(ListAt(kv, k) + [t.id])]
  }

  /** Store after the `deleteTodo` helper: only the project's todo index is written back. */
  function AfterDeleteTodo(kv: KV, projectId: string, todoId: string): (r: KV)
    requires WellFormed(kv)
    ensures WellFormed(r)
  {
    var k := TodoList(projectId);
    kv[k := Ids(RemoveFirst(ListAt(kv, k), todoId))]
  }

  /** The records `get_project_list` collects for `ids`: in order, ids without a record skipped. */
  function ProjectsOf(kv: KV, ids: seq<string>): (r: seq<Project>)
    requires WellFormed(kv)
    ensures |r| <= |ids|
    ensures forall p :: p in r ==> p.id in ids && ProjectRec(p.id) in kv && kv[ProjectRec(p.id)] == ProjectVal(p)
  {
    if ids == [] then []
    else
      var last := ids[|ids| - 1];
      ProjectsOf(kv, ids[..|ids| - 1]) + (if ProjectRec(last) in kv then [kv[ProjectRec(last)].project] else [])
  }

  // ---------------------------------------------------------------- listing

  lemma {:induction false} ProjectsOfConcat(kv: KV, a: seq<string>, b: seq<string>)
    requires WellFormed(kv)
    ensures ProjectsOf(kv, a + b) == ProjectsOf(kv, a) + ProjectsOf(kv, b)
    decreases |b|
  {
    if b == [] {
      assert a + b == a;
    } else {
      var b' := b[..|b| - 1];
      assert (a + b)[..|a + b| - 1] == a + b';
      ProjectsOfConcat(kv, a, b');
    }
  }

  /** An id with no record contributes nothing to the listing. */
  lemma ListingSkipsMissing(kv: KV, a: seq<string>, id: string, b: seq<string>)
    requires WellFormed(kv)
    requires ProjectRec(id) !in kv
    ensures ProjectsOf(kv, a + [id] + b) == ProjectsOf(kv, a + b)
  {
    ProjectsOfConcat(kv, a + [id], b);
    ProjectsOfConcat(kv, a, [id]);
    ProjectsOfConcat(kv, a, b);
    assert ProjectsOf(kv, [id]) == ProjectsOf(kv, []) by { assert [id][..0] == []; }
  }

  /** When every listed id has its record, the listing is exactly those records in index order. */
  lemma {:induction false} ListingAllPresent(kv: KV, ids: seq<string>)
    requires WellFormed(kv)
    requires forall id :: id in ids ==> ProjectRec(id) in kv
    ensures |ProjectsOf(kv, ids)| == |ids|
    ensures forall j :: 0 <= j < |ids| ==> kv[ProjectRec(ids[j])] == ProjectVal(ProjectsOf(kv, ids)[j])
  {
    if ids != [] {
      var init := ids[..|ids| - 1];
      var last := ids[|ids| - 1];
      ListingAllPresent(kv, init);
      assert ProjectsOf(kv, ids) == ProjectsOf(kv, init) + [kv[ProjectRec(last)].project];
      forall j | 0 <= j < |ids|
        ensures kv[ProjectRec(ids[j])] == ProjectVal(ProjectsOf(kv, ids)[j])
      {
        if j < |init| {
          assert ids[j] == init[j];
        } else {
          assert ids[j] == last;
        }
      }
    }
  }

  /** The listing depends only on the records of the listed ids. */
  lemma {:induction false} ProjectsOfFrame(kv: KV, kv': KV, ids: seq<string>)
    requires WellFormed(kv) && WellFormed(kv')
    requires forall id :: id in ids ==>
               (ProjectRec(id) in kv <==> ProjectRec(id) in kv') &&
               (ProjectRec(id) in kv ==> kv[ProjectRec(id)] == kv'[ProjectRec(id)])
    ensures ProjectsOf(kv, ids) == ProjectsOf(kv', ids)
  {
    if ids != [] {
      var init := ids[..|ids| - 1];
      assert forall id :: id in init ==> id in ids;
      ProjectsOfFrame(kv, kv', init);
    }
  }

  // ---------------------------------------------------------------- createProject

  /** `createProject` writes the record and `project:list` only; the new id ends the list, exactly once. */
  lemma CreateProjectWrites(kv: KV, p: Project)
    requires WellFormed(kv)
    requires Fresh(kv, p.id)
    ensures var r := AfterCreateProject(kv, p);
            && r[ProjectRec(p.id)] == ProjectVal(p)
            && ListAt(r, ProjectList) == ListAt(kv, ProjectList) + [p.id]
            && multiset(ListAt(r, ProjectList))[p.id] == 1
            && r.Keys == kv.Keys + {ProjectRec(p.id), ProjectList}
            && forall k :: k in kv && k != ProjectRec(p.id) && k != ProjectList ==> r[k] == kv[k]
  {
  }

  /** Listing after `createProject` yields the earlier listing followed by the new project, which was not in it. */
  lemma ListingAfterCreateProject(kv: KV, p: Project)
    requires WellFormed(kv)
    requires Fresh(kv, p.id)
    ensures var r := AfterCreateProject(kv, p);
            && ProjectsOf(r, ListAt(r, ProjectList)) == ProjectsOf(kv, ListAt(kv, ProjectList)) + [p]
            && p !in ProjectsOf(kv, ListAt(kv, ProjectList))
  {
    var r := AfterCreateProject(kv, p);
    var ids := ListAt(kv, ProjectList);
    assert p.id !in ids;
    ProjectsOfFrame(kv, r, ids);
    ProjectsOfConcat(r, ids, [p.id]);
    assert ProjectsOf(r, [p.id]) == [p] by { assert [p.id][..0] == []; }
  }

  /** `createProject` with a fresh id keeps each part of index consistency. */
  lemma CreateProjectKeepsConsistency(kv: KV, p: Project)
    requires WellFormed(kv)
    requires Fresh(kv, p.id)
    ensures var r := AfterCreateProject(kv, p);
            && (Indexed(kv) ==> Indexed(r))
            && (Complete(kv) ==> Complete(r))
            && (Distinct(kv) ==> Distinct(r))
            && (Consistent(kv) ==> Consistent(r))
  {
    var r := AfterCreateProject(kv, p);
    var s := ListAt(kv, ProjectList);
    assert ListAt(r, ProjectList) == s + [p.id];
    assert forall pid :: ListAt(r, TodoList(pid)) == ListAt(kv, TodoList(pid));
    if Complete(kv) {
      forall id | TodoRec(id) in r
        ensures id in ListAt(r, TodoList(r[TodoRec(id)].todo.projectId))
      {
        assert r[TodoRec(id)] == kv[TodoRec(id)];
      }
    }
    if Distinct(kv) {
      assert p.id !in s;
      assert NoDup(s);
      forall k' | k' in r && r[k'].Ids?
        ensures NoDup(r[k'].ids)
      {
        if k' != ProjectList {
          assert r[k'] == kv[k'];
        }
      }
    }
  }

  // ---------------------------------------------------------------- create_todo

  /** `create_todo` writes the todo record and its project's index only; the new id ends that index, exactly once. */
  lemma CreateTodoWrites(kv: KV, t: Todo)
    requires WellFormed(kv)
    requires Fresh(kv, t.id)
    ensures var r := AfterCreateTodo(kv, t);
            var k := TodoList(t.projectId);
            && r[TodoRec(t.id)] == TodoVal(t)
            && ListAt(r, k) == ListAt(kv, k) + [t.id]
            && multiset(ListAt(r, k))[t.id] == 1
            && r.Keys == kv.Keys + {TodoRec(t.id), k}
            && forall k' :: k' in kv && k' != TodoRec(t.id) && k' != k ==> r[k'] == kv[k']
  {
  }

  /** `create_todo` with a fresh id keeps each part of index consistency. */
  lemma CreateTodoKeepsConsistency(kv: KV, t: Todo)
    requires WellFormed(kv)
    requires Fresh(kv, t.id)
    ensures var r := AfterCreateTodo(kv, t);
            && (Indexed(kv) ==> Indexed(r))
            && (Complete(kv) ==> Complete(r))
            && (Distinct(kv) ==> Distinct(r))
            && (Consistent(kv) ==> Consistent(r))
  {
    var r := AfterCreateTodo(kv, t);
    var k := TodoList(t.projectId);
    var s := ListAt(kv, k);
    assert ListAt(r, k) == s + [t.id];
    assert ListAt(r, ProjectList) == ListAt(kv, ProjectList);
    assert forall pid :: pid != t.projectId ==> ListAt(r, TodoList(pid)) == ListAt(kv, TodoList(pid));
    if Indexed(kv) {
      forall pid, id | id in ListAt(r, TodoList(pid))
        ensures TodoRec(id) in r && r[TodoRec(id)].todo.projectId == pid
      {
        if pid == t.projectId && id != t.id {
          assert id in s;
        }
      }
    }
    if Complete(kv) {
      forall id | TodoRec(id) in r
        ensures id in ListAt(r, TodoList(r[TodoRec(id)].todo.projectId))
      {
        if id != t.id {
          var q := kv[TodoRec(id)].todo.projectId;
          assert id in ListAt(kv, TodoList(q));
        }
      }
    }
    if Distinct(kv) {
      assert t.id !in s;
      assert NoDup(s);
      forall k' | k' in r && r[k'].Ids?
        ensures NoDup(r[k'].ids)
      {
        if k' != k {
          assert r[k'] == kv[k'];
        }
      }
    }
  }

  // ---------------------------------------------------------------- deleteTodo

  /**
   * The `deleteTodo` helper drops the first occurrence of the id from the
   * project's index and writes the index back (`[]` when it was missing);
   * no other key changes, and the todo record stays.
   */
  lemma DeleteTodoWrites(kv: KV, projectId: string, todoId: string)
    requires WellFormed(kv)
    ensures var r := AfterDeleteTodo(kv, projectId, todoId);
            var k := TodoList(projectId);
            var s := ListAt(kv, k);
            && k in r
            && (k !in kv ==> r[k] == Ids([]))
            && (todoId !in s ==> ListAt(r, k) == s)
            && (todoId in s ==> multiset(ListAt(r, k)) == multiset(s) - multiset{todoId})
            && r.Keys == kv.Keys + {k}
            && (forall k' :: k' in kv && k' != k ==> r[k'] == kv[k'])
  {
    RemoveFirstCounts(ListAt(kv, TodoList(projectId)), todoId);
  }

  /** `deleteTodo` keeps indices pointing at records and duplicate-free; then the id is gone from the index. */
  lemma DeleteTodoKeepsIndexed(kv: KV, projectId: string, todoId: string)
    requires WellFormed(kv)
    ensures var r := AfterDeleteTodo(kv, projectId, todoId);
            && (Indexed(kv) ==> Indexed(r))
            && (Distinct(kv) ==> Distinct(r) && todoId !in ListAt(r, TodoList(projectId)))
  {
    var r := AfterDeleteTodo(kv, projectId, todoId);
    var k := TodoList(projectId);
    var s := ListAt(kv, k);
    RemoveFirstSubset(s, todoId);
    if Indexed(kv) {
      assert ListAt(r, ProjectList) == ListAt(kv, ProjectList);
      forall pid, id | id in ListAt(r, TodoList(pid))
        ensures TodoRec(id) in r && r[TodoRec(id)].todo.projectId == pid
      {
        if pid == projectId {
          assert id in s;
        } else {
          assert ListAt(r, TodoList(pid)) == ListAt(kv, TodoList(pid));
        }
      }
    }
    if Distinct(kv) {
      assert NoDup(s);
      RemoveFirstDistinct(s, todoId);
      forall k' | k' in r && r[k'].Ids?
        ensures NoDup(r[k'].ids)
      {
        if k' != k {
          assert r[k'] == kv[k'];
        }
      }
    }
  }

  /** Because the record is kept, `deleteTodo` on a consistent store leaves it incomplete: the todo is listed nowhere. */
  lemma DeleteTodoOrphansRecord(kv: KV, todoId: string)
    requires Consistent(kv)
    requires TodoRec(todoId) in kv
    ensures var r := AfterDeleteTodo(kv, kv[TodoRec(todoId)].todo.projectId, todoId);
            && TodoRec(todoId) in r
            && !Complete(r)
  {
    var pid := kv[TodoRec(todoId)].todo.projectId;
    DeleteTodoKeepsIndexed(kv, pid, todoId);
  }

  // ---------------------------------------------------------------- between the two writes

  /**
   * `createProject` puts the record before it rewrites `project:list`. A
   * store stopped between the two puts still has every listed id backed by
   * a record, but holds a project record that no index lists.
   */
  lemma CrashWindowProject(kv: KV, p: Project)
    requires WellFormed(kv)
    requires Fresh(kv, p.id)
    ensures var mid := kv[ProjectRec(p.id) := ProjectVal(p)];
            && WellFormed(mid)
            && (Indexed(kv) ==> Indexed(mid))
            && !Complete(mid)
  {
  }

  /** The `create_todo` counterpart: between its two puts the todo record is listed in no index. */
  lemma CrashWindowTodo(kv: KV, t: Todo)
    requires WellFormed(kv)
    requires Fresh(kv, t.id)
    ensures var mid := kv[TodoRec(t.id) := TodoVal(t)];
            && WellFormed(mid)
            && (Indexed(kv) ==> Indexed(mid))
            && !Complete(mid)
  {
  }
}
