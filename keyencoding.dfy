/**
 * The string keys src/index.ts builds for the store. With caller-supplied
 * project ids the encoding is not injective: `project:{projectId}` can be
 * the index key `project:list` or another project's `project:{id}:todos`,
 * so the existence check of `create_todo`, which only asks whether that
 * string key holds a value, can succeed without any Project record.
 */
module KeyEncoding {
  import opened Store

  /** The key string src/index.ts builds for `k`: every key but a todo record's lives under `project:`. */
  function Encode(k: Key): (s: string)
    ensures k.TodoRec? ==> |s| >= 5 && s[..5] == "todo:" && s[5..] == k.id
    ensures !k.TodoRec? ==> |s| >= 8 && s[..8] == "project:"
    ensures k.ProjectRec? ==> s[8..] == k.id
    ensures k.TodoList? ==> |s| == |k.pid| + 14 && s[8..|s| - 6] == k.pid && s[|s| - 6..] == ":todos"
  {
    match k
    case ProjectList => "project:list"
    case ProjectRec(id) => "project:" + id
    case TodoList(pid) => "project:" + pid + ":todos"
    case TodoRec(id) => "todo:" + id
  }

  /** The `create_todo` existence check as written: does the string key `project:{projectId}` hold a value? */
  ghost predicate ProjectFoundAsWritten(keys: set<Key>, projectId: string): (found: bool)
    ensures ProjectRec(projectId) in keys ==> found
  {
    assert Encode(ProjectRec(projectId)) == "project:" + projectId;
    exists k :: k in keys && Encode(k) == "project:" + projectId
  }

  /** As written, the id "list" passes the check when only the project index exists. */
  lemma ListIdPassesProjectCheck(keys: set<Key>)
    requires ProjectList in keys
    ensures ProjectFoundAsWritten(keys, "list")
  {
  }

  /** As written, the id "p:todos" passes the check when project p has a todo index. */
  lemma TodoIndexIdPassesProjectCheck(keys: set<Key>, p: string)
    requires TodoList(p) in keys
    ensures ProjectFoundAsWritten(keys, p + ":todos")
  {
  }

  /** A store holding only the index, with no Project record at all, still passes the check. */
  lemma CheckPassesWithoutProject()
    ensures ProjectFoundAsWritten({ProjectList}, "list")
    ensures ProjectRec("list") !in {ProjectList}
  {
  }

  /** For plain ids the string check agrees with the record check the rest of the model uses. */
  lemma ProjectCheckExactForPlainIds(keys: set<Key>, projectId: string)
    requires Plain(projectId)
    ensures ProjectFoundAsWritten(keys, projectId) <==> ProjectRec(projectId) in keys
  {
    if ProjectRec(projectId) in keys {
      assert Encode(ProjectRec(projectId)) == "project:" + projectId;
    }
    if ProjectFoundAsWritten(keys, projectId) {
      var k :| k in keys && Encode(k) == "project:" + projectId;
      SameKeyIsProjectRec(k, projectId);
    }
  }

  /** The only key whose string is `project:{projectId}`, for a plain id, is that project's record key. */
  lemma SameKeyIsProjectRec(k: Key, projectId: string)
    requires Plain(projectId)
    requires Encode(k) == "project:" + projectId
    ensures k == ProjectRec(projectId)
  {
    var s := "project:" + projectId;
    assert s[0] == 'p' && s[8..] == projectId;
    match k
    case ProjectList =>
      assert false;
    case ProjectRec(id) =>
      assert id == ("project:" + id)[8..];
    case TodoList(pid) =>
      ColonInTodoListSuffix(pid, projectId);
      assert false;
    case TodoRec(id) =>
      FirstChar(k);
      assert false;
  }

  lemma ColonInTodoListSuffix(pid: string, id: string)
    requires "project:" + pid + ":todos" == "project:" + id
    ensures ':' in id
  {
    var e := "project:" + pid + ":todos";
    assert id == e[8..];
    assert e[8 + |pid|] == ':';
    assert id[|pid|] == ':';
  }

  /** Record and index keys of projects start with 'p', todo record keys with 't'. */
  lemma FirstChar(k: Key)
    ensures |Encode(k)| > 0
    ensures Encode(k)[0] == if k.TodoRec? then 't' else 'p'
  {
  }

  predicate PlainKey(k: Key)
  {
    match k
    case ProjectList => true
    case ProjectRec(id) => Plain(id)
    case TodoList(pid) => Plain(pid)
    case TodoRec(id) => Plain(id)
  }

  /** Over plain ids, distinct keys never share a string key. */
  lemma EncodeInjective(k1: Key, k2: Key)
    requires PlainKey(k1) && PlainKey(k2)
    requires Encode(k1) == Encode(k2)
    ensures k1 == k2
  {
    if k2.ProjectRec? {
      SameKeyIsProjectRec(k1, k2.id);
    } else if k1.ProjectRec? {
      SameKeyIsProjectRec(k2, k1.id);
    } else {
      var e := Encode(k1);
      if k1.TodoRec? || k2.TodoRec? {
        if k1.TodoRec? && k2.TodoRec? {
          assert k1.id == e[5..] == k2.id;
        } else {
          FirstChar(k1);
          FirstChar(k2);
          assert false;
        }
      } else if k1.TodoList? && k2.TodoList? {
        assert |k1.pid| == |e| - 14 == |k2.pid|;
        assert k1.pid == e[8..|e| - 6] == k2.pid;
      } else if k1.TodoList? || k2.TodoList? {
        assert false;
      }
    }
  }
}
