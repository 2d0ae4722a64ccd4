# Task service: a Dafny model of the in-memory task store and its handlers

The service keeps a process-wide map from task identifier to `Task`
(identifier, description, note, list of applications), pre-populated with
two fixture tasks under keys "1" and "2", and exposes four HTTP handlers
over it: list all tasks, create a task, fetch a task by identifier, delete
a task by identifier.

This model strips away HTTP and JSON. The collection is an immutable
`map<string, Task>` (`TaskStore.Store`); each handler is a transition from
the collection (plus its decoded input) to a `Reply` holding the status
code, a response body and the collection afterwards. A request body is an
`Option<Task>`: `None` stands for a body the JSON decoder rejected. A
response body is a small datatype (`TaskBody`, `TaskList`, `Error(msg)`,
`Message(msg)`) rather than bytes.

Behaviour follows the Go code as written:

- a missing identifier on fetch or delete is answered with **400**
  "Task not found" (not 404);
- creating a task whose identifier already exists **overwrites** the
  stored task and answers 201 (there is no conflict error);
- the list handler returns every stored task in Go's unspecified map
  iteration order; the model picks the next key nondeterministically and
  states the result only up to permutation.

The invariant `KeyedById` (every key equals its task's `ID`, and no key is
empty) holds of the fixtures, is kept by every handler, and therefore holds
across any sequence of requests served from start-up (`Router.Serve`,
`Router.ServeFromStart`).

Files: `wrappers.dfy` (the `Option` type), `task_store.dfy` (`Task`, the
store, the fixtures, the invariant), `handlers.dfy` (the four handlers),
`router.dfy` (route dispatch and the sequential request loop),
`properties.dfy` (lemmas relating several handler calls).

## Model

| member | source | states |
|---|---|---|
| TaskStore.InitialTasks | precode.go:19-41 | the start-up collection holds exactly keys "1" and "2", each mapped to a task whose `ID` is its key, with the fixtures' application lists |
| Handlers.ListTasks | precode.go:44-54 | status 200 and a task list that enumerates the collection once per key in some order (the ghost key order witnesses it), has exactly `|store|` entries, contains exactly the stored tasks, is empty when the collection is, and leaves the collection unchanged |
| Handlers.CreateTask | precode.go:57-70 | 201 exactly when the body decoded to a task with a non-empty `ID`; otherwise 400 "Invalid task data" with the collection unchanged; on success the task is echoed, stored under its `ID` (overwriting), no other key changes, the size grows by one only for a new key, and the key/ID invariant is kept |
| Handlers.GetTaskByID | precode.go:73-86 | 200 exactly when the identifier is stored, with exactly the stored task; otherwise 400 "Task not found"; the collection is never changed |
| Handlers.DeleteTaskByID | precode.go:89-103 | 200 "Task deleted" exactly when the identifier is stored, then only that key is removed and every other entry is kept; otherwise 400 "Task not found" with the collection unchanged; the key/ID invariant is kept |
| Router.Handle | precode.go:106-111 | each route reaches its handler: create, fetch and delete answer exactly as their handlers do, and the list route answers 200 with a list that enumerates every stored task once (witnessed by a key order) and leaves the collection unchanged; every answer is 200, 201 or 400, and the key/ID invariant is kept |
| Router.Serve | precode.go:106-113 | serving requests one after another from a well-formed collection yields one response per request and a trace of collections (and of listing key orders) in which each request is answered by its handler on the collection the previous request left, the last collection being the result; every status is known, the key/ID invariant is kept, and every task left is an original entry untouched or the body of some create request |
| Router.ServeFromStart | precode.go:19-41 | from the fixture collection, the same handler-by-handler trace holds; every task after any request sequence is a fixture under key "1" or "2" or was created by a request, and keys still match IDs |
| Properties.CreateThenGet | precode.go:67-85 | a fetch of a just-created task's `ID` returns 200 with exactly that task |
| Properties.CreateLeavesOtherIdsAlone | precode.go:67 | creating a task does not change the answer to a fetch of any other identifier |
| Properties.CreateIsIdempotent | precode.go:61-69 | repeating the same create request gives the same response and the same collection |
| Properties.EmptyIdIsRejected | precode.go:61-64 | a task with an empty `ID` is refused with 400 "Invalid task data" whatever its other fields, and the collection is unchanged |
| Properties.DeleteThenGet | precode.go:77-102 | after a delete of any identifier, a fetch of it answers 400 "Task not found" |
| Properties.DeleteTwice | precode.go:93-100 | a second delete of the same identifier answers 400 "Task not found" and changes nothing |
| Properties.CreateThenDeleteRestores | precode.go:67-102 | deleting a task just created under a new identifier answers 200 "Task deleted" and restores the collection exactly |
| Properties.ListingIsPermutation | precode.go:48-51 | for a well-formed collection, the listed tasks are a permutation (equal multisets) of the collection's values |
| Properties.ListedTasksAreRetrievable | precode.go:48-85 | every listed task is what a fetch of its own `ID` returns |
| Properties.CreateGetDeleteScenario | precode.go:57-103 | create task "1" over the fixtures answers 201 with it, fetch answers 200 with it, delete answers 200 "Task deleted", a second fetch answers 400 "Task not found", and only key "2" remains |

Helpers without a row: `Router.Handles` (what the handler for a request may answer on a given collection, given a listing's key order), `Handlers.DistinctKeysCount` (a distinct key
sequence covering a key set has the set's size) and
`Properties.DistinctMultiplicity` (each element of a repetition-free
sequence occurs once in its multiset).

## Left out

- HTTP server and routing library: router construction, route registration, `ListenAndServe` and the start-up error message (precode.go:105-117) are transport; only the route-to-handler mapping is kept, as `Router.Handle`. The router's own 404 and 405 answers for any other method and path are not modelled.
- JSON decoding and encoding: done by Go's standard library; a request body is modelled as already decoded (`Option<Task>`) and a response body as a datatype. A body that decodes partially before failing is answered 400 either way, so the partial value is not modelled.
- Encoder errors: the code ignores them, so they are not modelled.
- The `Content-Type` header and the order of `WriteHeader` against the body write.
- The distinction between a nil and an empty `Applications` slice (JSON `null` versus `[]`); the model has only sequences.
- Concrete list order: Go map iteration order is unspecified; the model states the listing only up to permutation.
- Concurrency: the Go map is mutated without synchronisation; the model serves requests strictly one after another.
- Byte strings: Go strings are byte sequences, while the model's identifiers and fields are sequences of Unicode characters, so a path identifier that is not valid UTF-8 cannot be written; such an identifier can never be a stored key (keys come from decoded JSON), so the answer would be 400 "Task not found" either way.
