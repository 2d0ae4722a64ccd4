/**
  Properties that relate several handler calls: what a later request
  observes after an earlier one changed the collection, and what a
  listing says about the collection as a whole.
 */
module Properties {
  import opened Wrappers
  import opened TaskStore
  import opened Handlers

  /** A task just created is what a fetch of its identifier returns. */
  lemma CreateThenGet(s: Store, t: Task)
    requires t.ID != ""
    ensures GetTaskByID(CreateTask(s, Some(t)).store, t.ID).response == Response(StatusOK, TaskBody(t))
  {
  }

  /** Creating one task does not change what a fetch of any other identifier answers. */
  lemma CreateLeavesOtherIdsAlone(s: Store, t: Task, id: string)
    requires id != t.ID
    ensures GetTaskByID(CreateTask(s, Some(t)).store, id).response == GetTaskByID(s, id).response
  {
  }

  /** A second create of the same task changes nothing more: creation is an idempotent upsert. */
  lemma CreateIsIdempotent(s: Store, request: Option<Task>)
    ensures var once := CreateTask(s, request);
            CreateTask(once.store, request) == once
  {
  }

  /** A task with an empty identifier is refused, whatever its other fields say. */
  lemma EmptyIdIsRejected(s: Store, t: Task)
    requires t.ID == ""
    ensures CreateTask(s, Some(t)) == Reply(Response(StatusBadRequest, Error(InvalidTaskData)), s)
  {
  }

  /** After a delete, a fetch of that identifier is "Task not found", whether or not it existed before. */
  lemma DeleteThenGet(s: Store, id: string)
    ensures GetTaskByID(DeleteTaskByID(s, id).store, id).response
            == Response(StatusBadRequest, Error(TaskNotFound))
  {
  }

  /** A second delete of the same identifier is answered "Task not found" and changes nothing. */
  lemma DeleteTwice(s: Store, id: string)
    ensures var once := DeleteTaskByID(s, id);
            DeleteTaskByID(once.store, id) == Reply(Response(StatusBadRequest, Error(TaskNotFound)), once.store)
  {
  }

  /** Deleting a freshly created task undoes the create exactly. */
  lemma CreateThenDeleteRestores(s: Store, t: Task)
    requires t.ID != "" && t.ID !in s
    ensures DeleteTaskByID(CreateTask(s, Some(t)).store, t.ID)
            == Reply(Response(StatusOK, Message(TaskDeleted)), s)
  {
  }

  /** In a sequence with no repeated element, each element occurs exactly once. */
  lemma {:induction false} DistinctMultiplicity(xs: seq<Task>)
    requires forall i, j :: 0 <= i < j < |xs| ==> xs[i] != xs[j]
    ensures forall x :: multiset(xs)[x] == (if x in xs then 1 else 0)
  {
    if xs != [] {
      var prefix := xs[..|xs| - 1];
      var last := xs[|xs| - 1];
      assert xs == prefix + [last];
      DistinctMultiplicity(prefix);
      assert forall i :: 0 <= i < |prefix| ==> prefix[i] == xs[i] != last;
      forall x
        ensures multiset(xs)[x] == (if x in xs then 1 else 0)
      {
        assert multiset(xs) == multiset(prefix) + multiset{last};
      }
    }
  }

  /**
    In a well-formed collection a listing is a permutation of the
    collection's values: each stored task appears exactly once.
   */
  lemma ListingIsPermutation(s: Store, tasks: seq<Task>, order: seq<string>)
    requires KeyedById(s)
    requires Enumerates(tasks, order, s)
    ensures multiset(tasks) == multiset(s.Values)
  {
    forall i, j | 0 <= i < j < |tasks|
      ensures tasks[i] != tasks[j]
    {
      assert tasks[i].ID == order[i] && tasks[j].ID == order[j];
    }
    DistinctMultiplicity(tasks);
    forall t
      ensures multiset(tasks)[t] == multiset(s.Values)[t]
    {
      if t in s.Values {
        var k :| k in s && s[k] == t;
        var i :| 0 <= i < |order| && order[i] == k;
        assert tasks[i] == t;
      }
    }
  }

  /** Every task a listing returns is what a fetch of its own identifier answers. */
  lemma ListedTasksAreRetrievable(s: Store, tasks: seq<Task>, order: seq<string>)
    requires KeyedById(s)
    requires Enumerates(tasks, order, s)
    ensures forall i :: 0 <= i < |tasks| ==>
      GetTaskByID(s, tasks[i].ID).response == Response(StatusOK, TaskBody(tasks[i]))
  {
  }

  /**
    The walk-through of the service: create task "1" over the fixture
    collection (replacing the fixture), fetch it, delete it, fetch it
    again. The service answers 400, not 404, to the final fetch.
   */
  lemma CreateGetDeleteScenario()
    ensures var t := Task("1", "buy milk", "", []);
            var created := CreateTask(InitialTasks(), Some(t));
            var fetched := GetTaskByID(created.store, "1");
            var deleted := DeleteTaskByID(fetched.store, "1");
            var refetched := GetTaskByID(deleted.store, "1");
            && created.response == Response(StatusCreated, TaskBody(t))
            && fetched.response == Response(StatusOK, TaskBody(t))
            && deleted.response == Response(StatusOK, Message(TaskDeleted))
            && refetched.response == Response(StatusBadRequest, Error(TaskNotFound))
            && deleted.store.Keys == {"2"}
  {
  }
}
