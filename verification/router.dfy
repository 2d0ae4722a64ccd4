/**
  The routing table and the request loop: each incoming request is
  dispatched to its handler, one at a time, against the one shared
  collection.
 */
module Router {
  import opened Wrappers
  import opened TaskStore
  import opened Handlers

  /** The four routes, with the path parameter or the decoded body each carries. */
  datatype Request =
    | ListAll                        // GET /tasks
    | Create(body: Option<Task>)     // POST /tasks
    | GetById(id: string)            // GET /tasks/{id}
    | DeleteById(id: string)         // DELETE /tasks/{id}

  /** The status codes the four routes answer with. */
  predicate KnownStatus(status: int) {
    status == StatusOK || status == StatusCreated || status == StatusBadRequest
  }

  /**
    What the handler registered for `req` may answer when the collection is
    `s`: the list route leaves the collection alone and lists every stored
    task once, visiting the keys in `order`; the other three routes answer
    exactly as their handler does.
   */
  ghost predicate Handles(s: Store, req: Request, r: Reply, order: seq<string>) {
    match req
    case ListAll =>
      && r.store == s
      && r.response.status == StatusOK
      && r.response.body.TaskList?
      && Enumerates(r.response.body.tasks, order, s)
    case Create(body) => r == CreateTask(s, body)
    case GetById(id) => r == GetTaskByID(s, id)
    case DeleteById(id) => r == DeleteTaskByID(s, id)
  }

  /** Dispatches one request to the handler registered for its route. */
  method Handle(s: Store, req: Request) returns (r: Reply, ghost order: seq<string>)
    ensures KnownStatus(r.response.status)
    ensures req.ListAll? ==>
      r.store == s && r.response.status == StatusOK
      && r.response.body.TaskList? && Enumerates(r.response.body.tasks, order, s)
    ensures req.Create? ==> r == CreateTask(s, req.body)
    ensures req.GetById? ==> r == GetTaskByID(s, req.id)
    ensures req.DeleteById? ==> r == DeleteTaskByID(s, req.id)
    ensures Handles(s, req, r, order)
    ensures KeyedById(s) ==> KeyedById(r.store)
  {
    order := [];
    match req
    case ListAll =>
      r, order := ListTasks(s);
    case Create(body) =>
      r := CreateTask(s, body);
    case GetById(id) =>
      r := GetTaskByID(s, id);
    case DeleteById(id) =>
      r := DeleteTaskByID(s, id);
  }

  /**
    Serves a sequence of requests in order, starting from a well-formed
    collection. `stores` is the trace of collections the requests saw:
    request `i` meets `stores[i]`, is answered `responses[i]` by its
    handler and leaves `stores[i + 1]`; `orders[i]` is the key order of
    a listing. The collection stays keyed by
    identifier throughout, and every task it ends with is either one it
    started with, untouched, or the body of one of the create requests.
   */
  method Serve(s0: Store, reqs: seq<Request>)
    returns (responses: seq<Response>, s: Store, ghost stores: seq<Store>, ghost orders: seq<seq<string>>)
    requires KeyedById(s0)
    ensures |responses| == |reqs| && |stores| == |reqs| + 1 && |orders| == |reqs|
    ensures stores[0] == s0 && stores[|reqs|] == s
    ensures forall i :: 0 <= i < |reqs| ==> Handles(stores[i], reqs[i], Reply(responses[i], stores[i + 1]), orders[i])
    ensures KeyedById(s)
    ensures forall i :: 0 <= i < |responses| ==> KnownStatus(responses[i].status)
    ensures forall k :: k in s ==> (k in s0 && s[k] == s0[k]) || Create(Some(s[k])) in reqs
  {
    s := s0;
    responses := [];
    stores := [s0];
    orders := [];
    var n := 0;
    while n < |reqs|
      invariant 0 <= n <= |reqs|
      invariant |responses| == n && |stores| == n + 1 && |orders| == n
      invariant stores[0] == s0 && stores[n] == s
      invariant forall i :: 0 <= i < n ==> Handles(stores[i], reqs[i], Reply(responses[i], stores[i + 1]), orders[i])
      invariant KeyedById(s)
      invariant forall i :: 0 <= i < n ==> KnownStatus(responses[i].status)
      invariant forall k :: k in s ==> (k in s0 && s[k] == s0[k]) || Create(Some(s[k])) in reqs[..n]
    {
      var r;
      ghost var order;
      r, order := Handle(s, reqs[n]);
      assert reqs[..n + 1] == reqs[..n] + [reqs[n]];
      s := r.store;
      responses := responses + [r.response];
      stores := stores + [s];
      orders := orders + [order];
      n := n + 1;
    }
    assert reqs[..n] == reqs;
  }

  /** The service as it starts: the fixture collection, then the requests in arrival order. */
  method ServeFromStart(reqs: seq<Request>)
    returns (responses: seq<Response>, s: Store, ghost stores: seq<Store>, ghost orders: seq<seq<string>>)
    ensures |responses| == |reqs| && |stores| == |reqs| + 1 && |orders| == |reqs|
    ensures stores[0] == InitialTasks() && stores[|reqs|] == s
    ensures forall i :: 0 <= i < |reqs| ==> Handles(stores[i], reqs[i], Reply(responses[i], stores[i + 1]), orders[i])
    ensures KeyedById(s)
    ensures forall k :: k in s ==> (k in {"1", "2"} && s[k] == InitialTasks()[k]) || Create(Some(s[k])) in reqs
  {
    responses, s, stores, orders := Serve(InitialTasks(), reqs);
  }
}
