/**
  The four request handlers, with HTTP and JSON stripped away: each is a
  transition from the current collection (and its decoded input) to a
  status code, a response body and the collection afterwards.
 */
module Handlers {
  import opened Wrappers
  import opened TaskStore

  const StatusOK: int := 200
  const StatusCreated: int := 201
  const StatusBadRequest: int := 400

  const InvalidTaskData := "Invalid task data"
  const TaskNotFound := "Task not found"
  const TaskDeleted := "Task deleted"

  /** The JSON document a handler writes, before encoding. */
  datatype Body =
    | TaskBody(task: Task)          // a single task object
    | TaskList(tasks: seq<Task>)    // a JSON array of tasks
    | Error(error: string)          // {"error": ...}
    | Message(message: string)      // {"message": ...}

  datatype Response = Response(status: int, body: Body)

  /** What a handler produces: the response and the collection it leaves behind. */
  datatype Reply = Reply(response: Response, store: Store)

  /** The key order in which a listing visited the collection: each key once, all of them. */
  ghost predicate Enumerates(tasks: seq<Task>, order: seq<string>, s: Store) {
    && |order| == |tasks|
    && (forall i, j :: 0 <= i < j < |order| ==> order[i] != order[j])
    && (forall i :: 0 <= i < |order| ==> order[i] in s && tasks[i] == s[order[i]])
    && (forall k :: k in s ==> k in order)
  }

  /** A sequence of distinct keys that covers a key set has exactly as many elements as the set. */
  lemma {:induction false} DistinctKeysCount(order: seq<string>, keys: set<string>)
    requires forall i, j :: 0 <= i < j < |order| ==> order[i] != order[j]
    requires forall i :: 0 <= i < |order| ==> order[i] in keys
    requires forall k :: k in keys ==> k in order
    ensures |order| == |keys|
  {
    if order != [] {
      var last := order[|order| - 1];
      var prefix := order[..|order| - 1];
      forall k | k in keys - {last}
        ensures k in prefix
      {
        var i :| 0 <= i < |order| && order[i] == k;
        assert i < |order| - 1;
        assert prefix[i] == k;
      }
      DistinctKeysCount(prefix, keys - {last});
    }
  }

  /**
    GET /tasks: status 200 and every task in the collection, in an
    unspecified order (the order of Go's map iteration), as a list that
    is empty rather than absent when the collection is empty.
   */
  method ListTasks(s: Store) returns (r: Reply, ghost order: seq<string>)
    ensures r.store == s
    ensures r.response.status == StatusOK
    ensures r.response.body.TaskList?
    ensures Enumerates(r.response.body.tasks, order, s)
    ensures |r.response.body.tasks| == |s|
    ensures forall t :: t in r.response.body.tasks <==> t in s.Values
  {
    var remaining := s.Keys;
    var list: seq<Task> := [];
    order := [];
    while remaining != {}
      invariant remaining <= s.Keys
      invariant |order| == |list|
      invariant forall i, j :: 0 <= i < j < |order| ==> order[i] != order[j]
      invariant forall i :: 0 <= i < |order| ==> order[i] in s && order[i] !in remaining && list[i] == s[order[i]]
      invariant forall k :: k in s ==> k in remaining || k in order
      decreases remaining
    {
      var k :| k in remaining;
      list := list + [s[k]];
      order := order + [k];
      remaining := remaining - {k};
    }
    DistinctKeysCount(order, s.Keys);
    forall t | t in s.Values
      ensures t in list
    {
      var k :| k in s && s[k] == t;
      var i :| 0 <= i < |order| && order[i] == k;
      assert list[i] == t;
    }
    r := Reply(Response(StatusOK, TaskList(list)), s);
  }

  /**
    POST /tasks: a body that fails to decode, or decodes to a task with an
    empty identifier, is refused with 400; otherwise the task is stored
    under its identifier, replacing any task already there, and echoed
    back with 201.
   */
  function CreateTask(s: Store, request: Option<Task>): (r: Reply)
    ensures r.response.status == StatusCreated <==> request.Some? && request.value.ID != ""
    ensures r.response.status != StatusCreated ==>
      r.response == Response(StatusBadRequest, Error(InvalidTaskData)) && r.store == s
    ensures r.response.status == StatusCreated ==>
      var t := request.value;
      && r.response.body == TaskBody(t)
      && r.store.Keys == s.Keys + {t.ID}
      && r.store[t.ID] == t
      && (forall k :: k in s && k != t.ID ==> r.store[k] == s[k])
      && |r.store| == (if t.ID in s then |s| else |s| + 1)
    ensures KeyedById(s) ==> KeyedById(r.store)
  {
    match request
    case None => Reply(Response(StatusBadRequest, Error(InvalidTaskData)), s)
    case Some(t) =>
      if t.ID == "" then Reply(Response(StatusBadRequest, Error(InvalidTaskData)), s)
      else Reply(Response(StatusCreated, TaskBody(t)), s[t.ID := t])
  }

  /**
    GET /tasks/{id}: the stored task with 200, or 400 "Task not found"
    when no task has that identifier; the collection is only read.
   */
  function GetTaskByID(s: Store, id: string): (r: Reply)
    ensures r.store == s
    ensures r.response.status == StatusOK <==> id in s
    ensures id in s ==> r.response.body == TaskBody(s[id])
    ensures id !in s ==> r.response == Response(StatusBadRequest, Error(TaskNotFound))
  {
    if id in s then Reply(Response(StatusOK, TaskBody(s[id])), s)
    else Reply(Response(StatusBadRequest, Error(TaskNotFound)), s)
  }

  /**
    DELETE /tasks/{id}: removes the task with that identifier and answers
    200 "Task deleted", or answers 400 "Task not found" and changes
    nothing when there is no such task.
   */
  function DeleteTaskByID(s: Store, id: string): (r: Reply)
    ensures r.response.status == StatusOK <==> id in s
    ensures id in s ==>
      && r.response == Response(StatusOK, Message(TaskDeleted))
      && r.store.Keys == s.Keys - {id}
      && (forall k :: k in r.store ==> r.store[k] == s[k])
      && |r.store| == |s| - 1
    ensures id !in s ==> r.response == Response(StatusBadRequest, Error(TaskNotFound)) && r.store == s
    ensures KeyedById(s) ==> KeyedById(r.store)
  {
    if id !in s then Reply(Response(StatusBadRequest, Error(TaskNotFound)), s)
    else Reply(Response(StatusOK, Message(TaskDeleted)), s - {id})
  }
}
