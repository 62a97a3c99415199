# Task service: in-memory task store and its HTTP routes

A Dafny model of a small Ktor service that keeps a list of tasks in memory and
exposes create, read, update and delete over five HTTP endpoints
(`src/main/kotlin/Routing.kt`).

- **TaskStore.dfy**: the values. A `Task` has an id, a content string and a done flag. A
  `TaskRequest` is the payload without an id. A `Store` is the ordered task list plus the
  `nextId` counter. The module also holds the list queries the repository relies on
  (`find`, `indexOfFirst` and `removeIf`, each matching on the id) and the store operations
  `add`, `update` and `delete` as transitions between store values. The store invariant
  `Valid` says that ids are pairwise distinct and all below the counter. The lemmas prove
  what each operation promises and that each keeps the invariant.
- **Repository.dfy**: the `TaskRepository` object. It has a `seq<Task>` field and an `int`
  counter, both updated in place. The constructor sets up the seed state. The methods
  `GetAll`, `GetById`, `Add`, `Update` and `Delete` state the new list and counter in terms
  of the old ones, and each keeps the invariant.
- **Routing.dfy**: the five route handlers as one decision, `Dispatch`. It maps a store and
  an abstract request to a status code, a body and the next store. A request carries the id
  parsed from the path as `Option<int>` (`None` when `toIntOrNull` fails) and the
  deserialised body as `Option<TaskRequest>` (`None` when decoding throws). `Serve` runs the
  same handlers against a `TaskRepository` object and is proved to agree with `Dispatch`.
  `Run` feeds a sequence of requests through `Dispatch`. The lemmas about `Run` cover
  properties that span many calls: ids are never reused, and the task count is the starting
  count plus the creates minus the deletes.

`delete` uses `removeIf` (`src/main/kotlin/Routing.kt:58`), so it removes every task with
the id. `RemoveId` models that. `DeleteSpec` shows that in a store satisfying `Valid` this is
exactly one task.

## Model

| member | source | states |
|---|---|---|
| `TaskStore.Initial` | src/main/kotlin/Routing.kt:19-25 | the seed store satisfies the invariant; there are exactly three tasks, numbered 1, 2, 3 in list order; the counter is one past the last of them (4) |
| `TaskStore.IndexOfFirst` | src/main/kotlin/Routing.kt:46 | the result is -1 exactly when no task has the id; otherwise it is an index holding the id, and no earlier index holds it |
| `TaskStore.Find` | src/main/kotlin/Routing.kt:31 | a task that is found is an element of the list and carries the requested id |
| `TaskStore.FindIsFirst` | src/main/kotlin/Routing.kt:31 | `find` gives nothing exactly when `indexOfFirst` gives -1, and otherwise gives the task at that first index |
| `TaskStore.RemoveId` | src/main/kotlin/Routing.kt:58 | `removeIf` never makes the list longer |
| `TaskStore.RemoveIdMembers` | src/main/kotlin/Routing.kt:58 | after `removeIf`, a task is in the list exactly when it was there before and has a different id |
| `TaskStore.RemoveMissing` | src/main/kotlin/Routing.kt:58 | removing an id that no task has leaves the list identical |
| `TaskStore.RemovedIffPresent` | src/main/kotlin/Routing.kt:58 | the list gets shorter (what `removeIf` returns as true) exactly when some task had the id |
| `TaskStore.RemoveUnique` | src/main/kotlin/Routing.kt:58 | with distinct ids, removing a present id drops exactly the task at its index; the survivors keep their order |
| `TaskStore.RemoveKeepsUnique` | src/main/kotlin/Routing.kt:58 | removing tasks never makes two tasks share an id |
| `TaskStore.RemoveKeepsValid` | src/main/kotlin/Routing.kt:58 | `removeIf` on a store satisfying the invariant leaves ids distinct and below the counter |
| `TaskStore.Add` | src/main/kotlin/Routing.kt:34-42 | in a valid store, the id `add` hands out is not in use and the invariant holds afterwards; the full contract (fields, position, counter) is `AddSpec` |
| `TaskStore.Update` | src/main/kotlin/Routing.kt:45-54 | `update` returns a task exactly when some task has the id, and keeps ids distinct and below the counter; the full contract (which index changes, the rest unchanged) is `UpdateSpec` |
| `TaskStore.Delete` | src/main/kotlin/Routing.kt:57-59 | `delete` returns true exactly when some task had the id, and keeps ids distinct and below the counter; the full contract (which tasks survive, in what order) is `DeleteSpec` |
| `TaskStore.AddSpec` | src/main/kotlin/Routing.kt:34-42 | in a valid store, `add` gives the new task the old counter as its id and copies the request's fields into it; no stored task had that id; the task is appended after the unchanged old tasks; the counter goes up by exactly 1; the invariant holds afterwards |
| `TaskStore.AddReadBack` | src/main/kotlin/Routing.kt:31-42 | after `add`, looking up the new task's id returns exactly that task |
| `TaskStore.UpdateSpec` | src/main/kotlin/Routing.kt:45-54 | `update` returns a task exactly when the id is present. On a hit, the first matching index now holds a task with that id and the request's fields, and that task is returned; the length and every other index are unchanged. On a miss, the store is unchanged. The counter never changes |
| `TaskStore.UpdateReadBack` | src/main/kotlin/Routing.kt:31-54 | after a successful update in a valid store, looking up the id returns the updated task |
| `TaskStore.DeleteSpec` | src/main/kotlin/Routing.kt:57-59 | `delete` returns true exactly when some task had the id. Afterwards no task has it and the counter is unchanged. On a miss the store is unchanged. On a hit in a valid store, exactly the task at its index is removed, the others keep their order, and the length drops by 1 |
| `TaskStore.DeletedIdNotReissued` | src/main/kotlin/Routing.kt:34-59 | in a valid store, an `add` after deleting a present id never hands out that id again |
| `Repository.TaskRepository.constructor` | src/main/kotlin/Routing.kt:19-25 | the repository starts in the seed state and satisfies the invariant |
| `Repository.TaskRepository.GetAll` | src/main/kotlin/Routing.kt:28 | returns the whole list in insertion order and changes nothing |
| `Repository.TaskRepository.GetById` | src/main/kotlin/Routing.kt:31 | returns a task exactly when some task has the id, and then the one at the first such index; changes nothing |
| `Repository.TaskRepository.Add` | src/main/kotlin/Routing.kt:34-42 | the returned task has the old counter as its id and the request's fields; the list becomes the old list plus that task; the counter is post-incremented; the invariant is kept and the id was not in use |
| `Repository.TaskRepository.Update` | src/main/kotlin/Routing.kt:45-54 | replaces the task at the first index holding the id with one keeping the id and taking the request's fields, and returns it; on a miss returns nothing and leaves the list unchanged; the counter never changes; the invariant is kept |
| `Repository.TaskRepository.Delete` | src/main/kotlin/Routing.kt:57-59 | the list becomes the `removeIf` result; returns true exactly when some task had the id; afterwards none has it; the counter is untouched; the invariant is kept |
| `Routing.Dispatch` | src/main/kotlin/Routing.kt:63-135 | every response carries one of 200, 201, 204, 400, 404; a 400 leaves the store unchanged |
| `Routing.InvalidIdRejectedFirst` | src/main/kotlin/Routing.kt:72-125 | GET, PUT or DELETE with an unparsable id answers 400 "Invalid ID" and leaves the store unchanged, whatever the body and the store hold |
| `Routing.ListTasksContract` | src/main/kotlin/Routing.kt:66-69 | GET /tasks answers 200 with every task in order and leaves the store unchanged |
| `Routing.GetTaskContract` | src/main/kotlin/Routing.kt:72-85 | GET /tasks/{id} answers 200 exactly when the id is present, with the first task holding it; otherwise 404 "Task not found"; the store is unchanged |
| `Routing.PostTaskContract` | src/main/kotlin/Routing.kt:88-96 | POST /tasks with a bad body answers 400 and leaves the store unchanged; otherwise it answers 201 with the new task (old counter as id, request's fields) and the store is the one `add` produces |
| `Routing.PutTaskContract` | src/main/kotlin/Routing.kt:99-117 | PUT /tasks/{id} with a bad body answers 400 and leaves the store unchanged. Otherwise it answers 200 exactly when the id is present, with the updated task; else 404 with the store unchanged |
| `Routing.DeleteTaskContract` | src/main/kotlin/Routing.kt:120-133 | DELETE /tasks/{id} answers 204 with no body exactly when the id was present, else 404 with the store unchanged; the next store is always the one `delete` (`removeIf`) produces, so on a 204 the survivors keep their order (`DeleteSpec`); afterwards no task has the id |
| `Routing.DispatchStep` | src/main/kotlin/Routing.kt:63-135 | from a valid store, one request keeps the invariant. Only a 201 uses up an id, and that id is the old counter. 400 and 404 leave the store unchanged. The task count rises by 1 on 201, falls by 1 on 204, and is unchanged otherwise |
| `Routing.CreatedIdsOrdered` | src/main/kotlin/Routing.kt:34-42 | along any sequence of requests from a valid store, the ids of created tasks strictly increase and lie between the starting and the final counter; the counter grows by exactly one per create; the invariant holds at the end |
| `Routing.IdsNeverReused` | src/main/kotlin/Routing.kt:25-59 | along any sequence of requests from a valid store, no created id equals an id stored at the start (including ids deleted along the way), and no two creates get the same id |
| `Routing.TaskCount` | src/main/kotlin/Routing.kt:34-59 | along any sequence of requests from a valid store, the final task count is the starting count plus the number of 201s minus the number of 204s |
| `Routing.Walkthrough` | src/main/kotlin/Routing.kt:63-135 | from the seed state: list (200), create (201, id 4), read back (200), update (200, id kept), delete (204), read again (404), non-numeric id (400); the session ends with the seed tasks and the counter at 5 |
| `Routing.Serve` | src/main/kotlin/Routing.kt:63-135 | the handlers run against the repository object give exactly the response, and leave exactly the state, that `Dispatch` decides |

## Left out

- Ktor plumbing (`routing`, `call.respond`, `call.parameters`, `call.receive`): a request is given as the already-parsed path id and body, and a response as a status code and a body value.
- `toIntOrNull` and JSON decoding with kotlinx.serialization: these are library code, so their results come in as `Option` values. A failed decode, which the source catches as an exception, is `None`.
- JSON serialisation of responses: a body is a task list, one task, a message or nothing. The message texts are kept as constants; their wire format is not modelled.
- Repository.TaskRepository.Add: does not model 32-bit `Int` wrap-around of `nextId++`, because the counter is an unbounded `int`. In the source, create number n hands out id n + 3. Create number 2^31 - 4 hands out id 2^31 - 1 and wraps the counter to -2^31, after which "every id is below the counter" no longer holds. Ids stay distinct until create number 2^32 - 2, which hands out id 1 again.
- Concurrency: the repository is a process-wide singleton that concurrent requests may share. The model is sequential, one request at a time.
- `getAll` returns a copy (`toList()`); in the model a `seq` is a value, so there is no aliasing to model.
