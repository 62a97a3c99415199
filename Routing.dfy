/**
  The five HTTP endpoints over the task store, as a decision from an abstract
  request to a status code and a body.

  A request carries what the handler has after parsing: the path id as an
  `Option<int>` (the result of `toIntOrNull`, `None` when the text is not an
  integer) and the request body as an `Option<TaskRequest>` (`None` when the
  body cannot be deserialised). `Dispatch` is the decision over a store value;
  `Serve` runs the same decision against a `TaskRepository` object and is
  proved to agree with it. `Run` feeds a sequence of requests through
  `Dispatch`, for the properties that span several calls.
 */
module Routing {
  import opened TaskStore
  import opened Repository

  datatype Request =
    | ListTasks                                          // GET /tasks
    | GetTask(id: Option<int>)                           // GET /tasks/{id}
    | PostTask(body: Option<TaskRequest>)                // POST /tasks
    | PutTask(id: Option<int>, body: Option<TaskRequest>) // PUT /tasks/{id}
    | DeleteTask(id: Option<int>)                        // DELETE /tasks/{id}

  datatype Body = TaskList(tasks: seq<Task>) | OneTask(task: Task) | Text(message: string) | NoBody

  datatype Response = Response(status: int, body: Body)

  const OK: int := 200
  const Created: int := 201
  const NoContent: int := 204
  const BadRequest: int := 400
  const NotFound: int := 404

  const InvalidId: string := "Invalid ID"
  const TaskNotFound: string := "Task not found"
  const InvalidBody: string := "Invalid request body"

  /** True of the requests whose path carries an id. */
  predicate HasPathId(req: Request) {
    req.GetTask? || req.PutTask? || req.DeleteTask?
  }

  /**
    The response to one request and the store afterwards. Every response uses
    one of the five status codes, and a 400 never touches the store.
   */
  function Dispatch(s: Store, req: Request): (out: (Response, Store))
    ensures out.0.status in {OK, Created, NoContent, BadRequest, NotFound}
    ensures out.0.status == BadRequest ==> out.1 == s
  {
    match req
    case ListTasks =>
      (Response(OK, TaskList(s.tasks)), s)
    case GetTask(id) =>
      if id.None? then (Response(BadRequest, Text(InvalidId)), s)
      else
        var found := Find(s.tasks, id.value);
        if found.Some? then (Response(OK, OneTask(found.value)), s)
        else (Response(NotFound, Text(TaskNotFound)), s)
    case PostTask(body) =>
      if body.None? then (Response(BadRequest, Text(InvalidBody)), s)
      else
        var (t, s') := Add(s, body.value);
        (Response(Created, OneTask(t)), s')
    case PutTask(id, body) =>
      if id.None? then (Response(BadRequest, Text(InvalidId)), s)
      else if body.None? then (Response(BadRequest, Text(InvalidBody)), s)
      else
        var (updated, s') := Update(s, id.value, body.value);
        if updated.Some? then (Response(OK, OneTask(updated.value)), s')
        else (Response(NotFound, Text(TaskNotFound)), s')
    case DeleteTask(id) =>
      if id.None? then (Response(BadRequest, Text(InvalidId)), s)
      else
        var (removed, s') := Delete(s, id.value);
        if removed then (Response(NoContent, NoBody), s')
        else (Response(NotFound, Text(TaskNotFound)), s')
  }

  // ---------------------------------------------------------------------
  // The status-code contract, endpoint by endpoint

  /** An unparsable path id is a 400 before the store or the body is consulted. */
  lemma InvalidIdRejectedFirst(s: Store, req: Request)
    requires HasPathId(req) && req.id.None?
    ensures Dispatch(s, req) == (Response(BadRequest, Text(InvalidId)), s)
  {
  }

  /** GET /tasks: 200 with every task in insertion order; the store is left alone. */
  lemma ListTasksContract(s: Store)
    ensures Dispatch(s, ListTasks) == (Response(OK, TaskList(s.tasks)), s)
  {
  }

  /** GET /tasks/{id}: 200 with the first task holding the id on a hit, 404 on a miss. */
  lemma GetTaskContract(s: Store, id: int)
    ensures var (resp, s') := Dispatch(s, GetTask(Some(id)));
      && s' == s
      && (resp.status == OK <==> HasId(s.tasks, id))
      && (resp.status == OK ==> resp.body == OneTask(s.tasks[IndexOfFirst(s.tasks, id)]))
      && (resp.status != OK ==> resp == Response(NotFound, Text(TaskNotFound)))
  {
    FindIsFirst(s.tasks, id);
  }

  /** POST /tasks: 400 on a bad body with the store unchanged, else 201 with the new task. */
  lemma PostTaskContract(s: Store, body: Option<TaskRequest>)
    ensures var (resp, s') := Dispatch(s, PostTask(body));
      && (body.None? ==> resp == Response(BadRequest, Text(InvalidBody)) && s' == s)
      && (body.Some? ==>
            && resp.status == Created
            && resp.body == OneTask(Task(s.nextId, body.value.content, body.value.isDone))
            && s' == Add(s, body.value).1)
  {
  }

  /**
    PUT /tasks/{id} with a parsed id: 400 on a bad body, otherwise 200 with the
    updated task when the id is present and 404 when it is not.
   */
  lemma PutTaskContract(s: Store, id: int, body: Option<TaskRequest>)
    ensures var (resp, s') := Dispatch(s, PutTask(Some(id), body));
      && (body.None? ==> resp == Response(BadRequest, Text(InvalidBody)) && s' == s)
      && (body.Some? ==>
            && (resp.status == OK <==> HasId(s.tasks, id))
            && (resp.status == OK ==> resp.body == OneTask(Task(id, body.value.content, body.value.isDone)))
            && (resp.status != OK ==> resp == Response(NotFound, Text(TaskNotFound)) && s' == s)
            && s' == Update(s, id, body.value).1)
  {
  }

  /** DELETE /tasks/{id} with a parsed id: 204 when a task was removed, 404 otherwise. */
  lemma DeleteTaskContract(s: Store, id: int)
    ensures var (resp, s') := Dispatch(s, DeleteTask(Some(id)));
      && (resp.status == NoContent <==> HasId(s.tasks, id))
      && (resp.status == NoContent ==> resp.body == NoBody)
      && (resp.status != NoContent ==> resp == Response(NotFound, Text(TaskNotFound)) && s' == s)
      && s' == Delete(s, id).1
      && !HasId(s'.tasks, id)
  {
    DeleteSpec(s, id);
  }

  // ---------------------------------------------------------------------
  // What every request preserves

  /**
    One request: only a 201 consumes an id, and it is the old counter; the
    invariant is kept; errors leave the store as it was; the number of tasks
    grows by one on 201, shrinks by one on 204 and is unchanged otherwise.
   */
  lemma {:induction false} DispatchStep(s: Store, req: Request)
    requires Valid(s)
    ensures var (resp, s') := Dispatch(s, req);
      && Valid(s')
      && s'.nextId == s.nextId + (if resp.status == Created then 1 else 0)
      && (resp.status == Created ==> resp.body.OneTask? && resp.body.task.id == s.nextId)
      && (resp.status == BadRequest || resp.status == NotFound ==> s' == s)
      && |s'.tasks| == |s.tasks| + (if resp.status == Created then 1 else 0)
                                 - (if resp.status == NoContent then 1 else 0)
  {
    match req
    case ListTasks =>
    case GetTask(_) =>
    case PostTask(body) =>
      if body.Some? { AddSpec(s, body.value); }
    case PutTask(id, body) =>
      if id.Some? && body.Some? { PutStep(s, id.value, body.value); }
    case DeleteTask(id) =>
      if id.Some? { DeleteStep(s, id.value); }
  }

  lemma PutStep(s: Store, id: int, r: TaskRequest)
    requires Valid(s)
    ensures var (resp, s') := Dispatch(s, PutTask(Some(id), Some(r)));
      && Valid(s') && s'.nextId == s.nextId && |s'.tasks| == |s.tasks|
      && (resp.status == NotFound ==> s' == s)
  {
  }

  lemma DeleteStep(s: Store, id: int)
    requires Valid(s)
    ensures var (resp, s') := Dispatch(s, DeleteTask(Some(id)));
      && Valid(s') && s'.nextId == s.nextId
      && (resp.status == NotFound ==> s' == s)
      && |s'.tasks| == |s.tasks| - (if resp.status == NoContent then 1 else 0)
  {
    DeleteSpec(s, id);
  }

  // ---------------------------------------------------------------------
  // Sequences of requests

  /** The responses to a sequence of requests, served in order, and the final store. */
  function Run(s: Store, reqs: seq<Request>): (out: (seq<Response>, Store))
    ensures |out.0| == |reqs|
    decreases |reqs|
  {
    if reqs == [] then ([], s)
    else
      var (resp, s1) := Dispatch(s, reqs[0]);
      var (rest, s2) := Run(s1, reqs[1..]);
      ([resp] + rest, s2)
  }

  /** The ids of the tasks created, in the order of the 201 responses. */
  function CreatedIds(rs: seq<Response>): seq<int> {
    if rs == [] then []
    else
      (if rs[0].status == Created && rs[0].body.OneTask? then [rs[0].body.task.id] else [])
      + CreatedIds(rs[1..])
  }

  function CountStatus(rs: seq<Response>, status: int): nat {
    if rs == [] then 0
    else (if rs[0].status == status then 1 else 0) + CountStatus(rs[1..], status)
  }

  predicate StrictlyIncreasing(xs: seq<int>) {
    forall i, j :: 0 <= i < j < |xs| ==> xs[i] < xs[j]
  }

  lemma IncreasingCons(x: int, xs: seq<int>)
    requires StrictlyIncreasing(xs) && forall i :: 0 <= i < |xs| ==> x < xs[i]
    ensures StrictlyIncreasing([x] + xs)
  {
  }

  lemma CreatedIdsCons(resp: Response, rest: seq<Response>)
    ensures CreatedIds([resp] + rest)
         == (if resp.status == Created && resp.body.OneTask? then [resp.body.task.id] else []) + CreatedIds(rest)
  {
  }

  /**
    Along any sequence of requests from a valid store, the created ids
    strictly increase and lie between the first and the final counter, which
    grows by one per create; the invariant holds at the end.
   */
  lemma {:induction false} CreatedIdsOrdered(s: Store, reqs: seq<Request>)
    requires Valid(s)
    decreases |reqs|
    ensures var (rs, s') := Run(s, reqs);
      var ids := CreatedIds(rs);
      && Valid(s')
      && StrictlyIncreasing(ids)
      && (forall i :: 0 <= i < |ids| ==> s.nextId <= ids[i] < s'.nextId)
      && s'.nextId == s.nextId + |ids|
  {
    if reqs != [] {
      var (resp, s1) := Dispatch(s, reqs[0]);
      DispatchStep(s, reqs[0]);
      CreatedIdsOrdered(s1, reqs[1..]);
      var (rest, s2) := Run(s1, reqs[1..]);
      assert Run(s, reqs) == ([resp] + rest, s2);
      CreatedIdsCons(resp, rest);
      var tailIds := CreatedIds(rest);
      if resp.status == Created {
        IncreasingCons(s.nextId, tailIds);
      }
    }
  }

  /**
    Ids are never reused: along any sequence of requests from a valid store,
    no created id equals an id the store held at the start, including those
    of tasks deleted on the way, and no two creates share an id.
   */
  lemma IdsNeverReused(s: Store, reqs: seq<Request>)
    requires Valid(s)
    ensures var ids := CreatedIds(Run(s, reqs).0);
      && (forall i, j :: 0 <= i < |ids| && 0 <= j < |s.tasks| ==> ids[i] != s.tasks[j].id)
      && (forall i, j :: 0 <= i < j < |ids| ==> ids[i] != ids[j])
  {
    CreatedIdsOrdered(s, reqs);
  }

  /**
    The list length along any sequence of requests from a valid store: the
    starting count plus the creates (201) minus the deletes (204).
   */
  lemma {:induction false} TaskCount(s: Store, reqs: seq<Request>)
    requires Valid(s)
    decreases |reqs|
    ensures var (rs, s') := Run(s, reqs);
      |s'.tasks| == |s.tasks| + CountStatus(rs, Created) - CountStatus(rs, NoContent)
  {
    if reqs != [] {
      var (resp, s1) := Dispatch(s, reqs[0]);
      DispatchStep(s, reqs[0]);
      TaskCount(s1, reqs[1..]);
      var (rest, s2) := Run(s1, reqs[1..]);
      assert ([resp] + rest)[1..] == rest;
    }
  }

  /**
    A session from the seed state, one request after the other: list, create
    a task from `x`, read it back, update it from `y`, delete it, read it
    again, and send a non-numeric id. The session ends with the seed tasks and
    the counter at 5.
   */
  lemma Walkthrough(x: TaskRequest, y: TaskRequest)
    ensures
      var (r1, s1) := Dispatch(Initial(), ListTasks);
      var (r2, s2) := Dispatch(s1, PostTask(Some(x)));
      var (r3, s3) := Dispatch(s2, GetTask(Some(4)));
      var (r4, s4) := Dispatch(s3, PutTask(Some(4), Some(y)));
      var (r5, s5) := Dispatch(s4, DeleteTask(Some(4)));
      var (r6, s6) := Dispatch(s5, GetTask(Some(4)));
      var (r7, s7) := Dispatch(s6, GetTask(None));
      && r1 == Response(OK, TaskList(Initial().tasks))
      && r2 == Response(Created, OneTask(Task(4, x.content, x.isDone)))
      && r3 == Response(OK, OneTask(Task(4, x.content, x.isDone)))
      && r4 == Response(OK, OneTask(Task(4, y.content, y.isDone)))
      && r5 == Response(NoContent, NoBody)
      && r6 == Response(NotFound, Text(TaskNotFound))
      && r7 == Response(BadRequest, Text(InvalidId))
      && s7 == Store(Initial().tasks, 5)
  {
    var s0 := Initial();
    var t := Task(4, x.content, x.isDone);
    var u := Task(4, y.content, y.isDone);
    SessionCreate(x);
    SessionUpdate(t, y);
    SessionDelete(u);
    FindIsFirst(s0.tasks, 4);
  }

  lemma SessionCreate(x: TaskRequest)
    ensures var t := Task(4, x.content, x.isDone);
      && Dispatch(Initial(), PostTask(Some(x))) == (Response(Created, OneTask(t)), Store(Initial().tasks + [t], 5))
      && Dispatch(Store(Initial().tasks + [t], 5), GetTask(Some(4))) == (Response(OK, OneTask(t)), Store(Initial().tasks + [t], 5))
  {
    AddReadBack(Initial(), x);
  }

  lemma SessionUpdate(t: Task, y: TaskRequest)
    requires t.id == 4
    ensures var u := Task(4, y.content, y.isDone);
      Dispatch(Store(Initial().tasks + [t], 5), PutTask(Some(4), Some(y)))
        == (Response(OK, OneTask(u)), Store(Initial().tasks + [u], 5))
  {
    var s1 := Store(Initial().tasks + [t], 5);
    assert s1.tasks[3].id == 4 && forall j :: 0 <= j < 3 ==> s1.tasks[j].id == j + 1;
    assert IndexOfFirst(s1.tasks, 4) == 3;
    assert s1.tasks[3 := Task(4, y.content, y.isDone)] == Initial().tasks + [Task(4, y.content, y.isDone)];
  }

  lemma SessionDelete(u: Task)
    requires u.id == 4
    ensures Dispatch(Store(Initial().tasks + [u], 5), DeleteTask(Some(4)))
         == (Response(NoContent, NoBody), Store(Initial().tasks, 5))
  {
    var s2 := Store(Initial().tasks + [u], 5);
    AddSpec(Initial(), TaskRequest(u.content, u.isDone));
    assert s2 == Add(Initial(), TaskRequest(u.content, u.isDone)).1;
    DeleteSpec(s2, 4);
    assert s2.tasks[..3] + s2.tasks[4..] == Initial().tasks;
  }

  // ---------------------------------------------------------------------
  // The handlers against the repository object

  /**
    The five handlers of the router, run against the repository object: the
    response and the repository's new state are exactly what `Dispatch`
    decides for its old state.
   */
  method Serve(repo: TaskRepository, req: Request) returns (resp: Response)
    modifies repo
    ensures (resp, repo.State()) == Dispatch(old(repo.State()), req)
  {
    match req
    case ListTasks =>
      var all := repo.GetAll();
      resp := Response(OK, TaskList(all));
    case GetTask(id) =>
      if id.None? {
        resp := Response(BadRequest, Text(InvalidId));
        return;
      }
      FindIsFirst(repo.tasks, id.value);
      var task := repo.GetById(id.value);
      if task.Some? {
        resp := Response(OK, OneTask(task.value));
      } else {
        resp := Response(NotFound, Text(TaskNotFound));
      }
    case PostTask(body) =>
      if body.None? {
        resp := Response(BadRequest, Text(InvalidBody));
      } else {
        var task := repo.Add(body.value);
        resp := Response(Created, OneTask(task));
      }
    case PutTask(id, body) =>
      if id.None? {
        resp := Response(BadRequest, Text(InvalidId));
        return;
      }
      if body.None? {
        resp := Response(BadRequest, Text(InvalidBody));
      } else {
        var updated := repo.Update(id.value, body.value);
        if updated.Some? {
          resp := Response(OK, OneTask(updated.value));
        } else {
          resp := Response(NotFound, Text(TaskNotFound));
        }
      }
    case DeleteTask(id) =>
      if id.None? {
        resp := Response(BadRequest, Text(InvalidId));
        return;
      }
      DeleteSpec(old(repo.State()), id.value);
      var deleted := repo.Delete(id.value);
      if deleted {
        resp := Response(NoContent, NoBody);
      } else {
        resp := Response(NotFound, Text(TaskNotFound));
      }
  }
}
