/**
  The task repository object: a mutable, ordered list of tasks and a counter,
  updated in place by its operations. Each method states the new list and
  counter in terms of the old ones, using the list queries of TaskStore, and
  promises to keep the store invariant (distinct ids, all below the counter).
 */
module Repository {
  import opened TaskStore

  class TaskRepository {
    var tasks: seq<Task>
    var nextId: int

    /** The repository's state as a value. */
    function State(): Store
      reads this
    {
      Store(tasks, nextId)
    }

    /** The object invariant: the store invariant of the current state. */
    predicate Valid()
      reads this
    {
      TaskStore.Valid(State())
    }

    /** The seed state the repository starts in. */
    constructor ()
      ensures State() == Initial() && Valid()
    {
      var seed := Initial();
      tasks := seed.tasks;
      nextId := seed.nextId;
    }

    /** `getAll`: a copy of the whole list, in insertion order. */
    method GetAll() returns (all: seq<Task>)
      ensures all == tasks
    {
      all := tasks;
    }

    /** `getById`: the first task with the id, or nothing when none has it. */
    method GetById(id: int) returns (found: Option<Task>)
      ensures found.Some? <==> HasId(tasks, id)
      ensures found.Some? ==> found.value == tasks[IndexOfFirst(tasks, id)]
    {
      found := Find(tasks, id);
      FindIsFirst(tasks, id);
    }

    /**
      `add`: the new task takes the counter (post-incremented) as its id and
      the request's fields, and is appended; no task held that id before.
     */
    method Add(request: TaskRequest) returns (task: Task)
      modifies this
      ensures task == Task(old(nextId), request.content, request.isDone)
      ensures tasks == old(tasks) + [task] && nextId == old(nextId) + 1
      ensures old(Valid()) ==> Valid() && !HasId(old(tasks), task.id)
    {
      task := Task(nextId, request.content, request.isDone);
      nextId := nextId + 1;
      tasks := tasks + [task];
    }

    /**
      `update`: when some task has the id, the one at the first such index is
      replaced by a task with that id and the request's fields, which is
      returned; otherwise nothing changes and nothing is returned.
     */
    method Update(id: int, request: TaskRequest) returns (updated: Option<Task>)
      modifies this
      ensures var k := IndexOfFirst(old(tasks), id);
        if k == -1 then updated.None? && tasks == old(tasks)
        else updated == Some(Task(id, request.content, request.isDone)) && tasks == old(tasks)[k := updated.value]
      ensures updated.Some? <==> HasId(old(tasks), id)
      ensures nextId == old(nextId)
      ensures old(Valid()) ==> Valid()
    {
      var index := IndexOfFirst(tasks, id);
      if index != -1 {
        var task := Task(id, request.content, request.isDone);
        tasks := tasks[index := task];
        updated := Some(task);
      } else {
        updated := None;
      }
    }

    /**
      `delete`: every task with the id is removed, the others keep their order;
      the result says whether some task had the id. The counter is untouched.
     */
    method Delete(id: int) returns (removed: bool)
      modifies this
      ensures tasks == RemoveId(old(tasks), id) && nextId == old(nextId)
      ensures removed <==> HasId(old(tasks), id)
      ensures !HasId(tasks, id)
      ensures old(Valid()) ==> Valid()
    {
      var before := tasks;
      tasks := RemoveId(tasks, id);
      removed := |tasks| < |before|;
      DeleteSpec(old(State()), id);
      RemoveKeepsValid(old(State()), id);
    }
  }
}
