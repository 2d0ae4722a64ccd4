/**
  The task record and the in-memory collection the handlers share:
  a map from a task's identifier to the task, pre-populated with two
  fixture entries when the service starts.
 */
module TaskStore {

  /** A task as the service stores and serialises it. */
  datatype Task = Task(
    ID: string,
    Description: string,
    Note: string,
    Applications: seq<string>
  )

  /** The process-wide collection, keyed by task identifier. */
  type Store = map<string, Task>

  /**
    The collection's invariant: every entry is stored under its own
    (non-empty) identifier, so a key names exactly one task and the
    task knows its key.
   */
  ghost predicate KeyedById(s: Store) {
    forall k :: k in s ==> s[k].ID == k && k != ""
  }

  /** The first fixture task. */
  const FirstFixture := Task(
    "1",
    "Сделать финальное задание темы REST API",
    "Если сегодня сделаю, то завтра будет свободный день. Ура!",
    ["VS Code", "Terminal", "git"])

  /** The second fixture task. */
  const SecondFixture := Task(
    "2",
    "Протестировать финальное задание с помощью Postmen",
    "Лучше это делать в процессе разработки, каждый раз, когда запускаешь сервер и проверяешь хендлер",
    ["VS Code", "Terminal", "git", "Postman"])

  /** The collection as it stands at start-up: the two fixtures, each under its own identifier. */
  function InitialTasks(): (s: Store)
    ensures s.Keys == {"1", "2"}
    ensures KeyedById(s)
    ensures s["1"].Applications == ["VS Code", "Terminal", "git"]
    ensures s["2"].Applications == ["VS Code", "Terminal", "git", "Postman"]
  {
    map["1" := FirstFixture, "2" := SecondFixture]
  }
}
