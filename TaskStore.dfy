/**
  The task records and the in-memory task store as values.

  A store is the ordered list of tasks together with the counter that gives
  the next id. The list queries the store is built on (Kotlin's `find`,
  `indexOfFirst` and `removeIf`, each matching on the id) are functions here,
  and the three store operations that change the store (`add`, `update`,
  `delete`) are transitions from one store value to the next. The class in
  Repository.dfy is proved against these functions, and the router in
  Routing.dfy is defined with them.
 */
module TaskStore {

  datatype Option<+T> = None | Some(value: T)

  /** A stored task: the id is assigned by the store and never changes. */
  datatype Task = Task(id: int, content: string, isDone: bool)

  /** The payload of a create or update request: a task without an id. */
  datatype TaskRequest = TaskRequest(content: string, isDone: bool)

  /** The whole state of the store: the tasks in insertion order and the next id. */
  datatype Store = Store(tasks: seq<Task>, nextId: int)

  predicate HasId(ts: seq<Task>, id: int) {
    exists i :: 0 <= i < |ts| && ts[i].id == id
  }

  /** No two stored tasks share an id. */
  predicate UniqueIds(ts: seq<Task>) {
    forall i, j :: 0 <= i < j < |ts| ==> ts[i].id != ts[j].id
  }

  /** The store invariant: ids are pairwise distinct and all below the counter. */
  predicate Valid(s: Store) {
    && UniqueIds(s.tasks)
    && forall i :: 0 <= i < |s.tasks| ==> s.tasks[i].id < s.nextId
  }

  /** The seed state: three tasks numbered 1, 2, 3 and the counter at 4. */
  function Initial(): (s: Store)
    ensures Valid(s)
    ensures forall i :: 0 <= i < |s.tasks| ==> s.tasks[i].id == i + 1
    ensures s.nextId == |s.tasks| + 1
    ensures |s.tasks| == 3
  {
    Store([ Task(1, "Learn Ktor", true),
            Task(2, "Build a REST API", false),
            Task(3, "Write Unit Tests", false) ],
          4)
  }

  // ---------------------------------------------------------------------
  // The list queries

  /** `indexOfFirst { it.id == id }`: the first index holding that id, or -1. */
  function IndexOfFirst(ts: seq<Task>, id: int): (k: int)
    ensures -1 <= k < |ts|
    ensures k == -1 <==> !HasId(ts, id)
    ensures 0 <= k ==> ts[k].id == id && forall j :: 0 <= j < k ==> ts[j].id != id
  {
    if ts == [] then -1
    else if ts[0].id == id then 0
    else
      var k := IndexOfFirst(ts[1..], id);
      assert HasId(ts, id) ==> HasId(ts[1..], id) by {
        if HasId(ts, id) {
          var i :| 0 <= i < |ts| && ts[i].id == id;
          assert ts[1..][i - 1].id == id;
        }
      }
      if k == -1 then -1 else k + 1
  }

  /** `find { it.id == id }`: the first task holding that id, if there is one. */
  function Find(ts: seq<Task>, id: int): (r: Option<Task>)
    ensures r.Some? ==> r.value in ts && r.value.id == id
  {
    if ts == [] then None
    else if ts[0].id == id then Some(ts[0])
    else
      var r := Find(ts[1..], id);
      assert r.Some? ==> r.value in ts by {
        if r.Some? {
          var j :| 0 <= j < |ts[1..]| && ts[1..][j] == r.value;
          assert ts[j + 1] == r.value;
        }
      }
      r
  }

  /** `find` and `indexOfFirst` agree: `find` yields the task at the first index. */
  lemma {:induction false} FindIsFirst(ts: seq<Task>, id: int)
    ensures Find(ts, id) == if IndexOfFirst(ts, id) == -1 then None else Some(ts[IndexOfFirst(ts, id)])
  {
    if ts != [] && ts[0].id != id {
      FindIsFirst(ts[1..], id);
    }
  }

  /** `removeIf { it.id == id }`: the tasks with another id, in their original order. */
  function RemoveId(ts: seq<Task>, id: int): (r: seq<Task>)
    ensures |r| <= |ts|
  {
    if ts == [] then []
    else (if ts[0].id == id then [] else [ts[0]]) + RemoveId(ts[1..], id)
  }

  /** The survivors of `removeIf` are exactly the tasks with another id. */
  lemma {:induction false} RemoveIdMembers(ts: seq<Task>, id: int)
    ensures forall t :: t in RemoveId(ts, id) <==> t in ts && t.id != id
  {
    if ts != [] {
      RemoveIdMembers(ts[1..], id);
      assert forall t :: t in ts <==> t == ts[0] || t in ts[1..];
    }
  }

  /** Removing an id that is not there leaves the list as it was. */
  lemma {:induction false} RemoveMissing(ts: seq<Task>, id: int)
    requires !HasId(ts, id)
    ensures RemoveId(ts, id) == ts
  {
    if ts != [] {
      assert !HasId(ts[1..], id) by {
        forall i | 0 <= i < |ts[1..]| ensures ts[1..][i].id != id {
          assert ts[1..][i] == ts[i + 1];
        }
      }
      RemoveMissing(ts[1..], id);
      assert ts == [ts[0]] + ts[1..];
    }
  }

  /** `removeIf` reports a removal exactly when some element had that id. */
  lemma {:induction false} RemovedIffPresent(ts: seq<Task>, id: int)
    ensures |RemoveId(ts, id)| < |ts| <==> HasId(ts, id)
  {
    if ts != [] {
      RemovedIffPresent(ts[1..], id);
      assert HasId(ts, id) <==> ts[0].id == id || HasId(ts[1..], id) by {
        if HasId(ts, id) && ts[0].id != id {
          var i :| 0 <= i < |ts| && ts[i].id == id;
          assert ts[1..][i - 1].id == id;
        }
        if HasId(ts[1..], id) {
          var i :| 0 <= i < |ts[1..]| && ts[1..][i].id == id;
          assert ts[i + 1].id == id;
        }
      }
    }
  }

  lemma UniqueTail(ts: seq<Task>)
    requires ts != [] && UniqueIds(ts)
    ensures UniqueIds(ts[1..]) && !HasId(ts[1..], ts[0].id)
  {
  }

  lemma RemoveHead(ts: seq<Task>)
    requires ts != [] && UniqueIds(ts)
    ensures RemoveId(ts, ts[0].id) == ts[1..]
  {
    UniqueTail(ts);
    RemoveMissing(ts[1..], ts[0].id);
  }

  lemma RemoveConsStep(ts: seq<Task>, id: int, k: int)
    requires ts != [] && ts[0].id != id && 0 <= k < |ts| - 1
    requires RemoveId(ts[1..], id) == ts[1..][..k] + ts[1..][k + 1..]
    ensures RemoveId(ts, id) == ts[..k + 1] + ts[k + 2..]
  {
  }

  /**
    With distinct ids, removing a present id drops exactly the element at its
    index: the list loses one element and the survivors keep their order.
   */
  lemma {:induction false} RemoveUnique(ts: seq<Task>, id: int)
    requires UniqueIds(ts) && HasId(ts, id)
    ensures var k := IndexOfFirst(ts, id);
      0 <= k && RemoveId(ts, id) == ts[..k] + ts[k + 1..]
  {
    if ts[0].id == id {
      RemoveHead(ts);
    } else {
      UniqueTail(ts);
      assert HasId(ts[1..], id) by {
        var i :| 0 <= i < |ts| && ts[i].id == id;
        assert ts[1..][i - 1].id == id;
      }
      RemoveUnique(ts[1..], id);
      RemoveConsStep(ts, id, IndexOfFirst(ts[1..], id));
    }
  }

  /** Removing elements never creates a duplicate id. */
  lemma {:induction false} RemoveKeepsUnique(ts: seq<Task>, id: int)
    requires UniqueIds(ts)
    ensures UniqueIds(RemoveId(ts, id))
  {
    if ts != [] {
      UniqueTail(ts);
      RemoveKeepsUnique(ts[1..], id);
      var rest := RemoveId(ts[1..], id);
      RemoveIdMembers(ts[1..], id);
      if ts[0].id != id {
        forall j | 0 <= j < |rest| ensures rest[j].id != ts[0].id {
          assert rest[j] in ts[1..];
        }
        var r := [ts[0]] + rest;
        forall i, j | 0 <= i < j < |r| ensures r[i].id != r[j].id {
          assert r[j] == rest[j - 1];
          if i > 0 { assert r[i] == rest[i - 1]; }
        }
      }
    }
  }

  /** Removing the tasks with an id from a valid store leaves a valid store. */
  lemma RemoveKeepsValid(s: Store, id: int)
    ensures Valid(s) ==> Valid(s.(tasks := RemoveId(s.tasks, id)))
  {
    if Valid(s) {
      var ts' := RemoveId(s.tasks, id);
      RemoveKeepsUnique(s.tasks, id);
      RemoveIdMembers(s.tasks, id);
      forall i | 0 <= i < |ts'| ensures ts'[i].id < s.nextId {
        assert ts'[i] in s.tasks;
      }
    }
  }

  // ---------------------------------------------------------------------
  // The store operations as transitions

  /**
    `add`: the new task takes the counter as its id and goes at the end. In a
    valid store that id is not in use and the invariant survives.
   */
  function Add(s: Store, r: TaskRequest): (res: (Task, Store))
    ensures Valid(s) ==> Valid(res.1) && !HasId(s.tasks, res.0.id)
  {
    var t := Task(s.nextId, r.content, r.isDone);
    (t, Store(s.tasks + [t], s.nextId + 1))
  }

  /**
    `update`: the first task with the id is replaced, keeping the id. A task
    comes back exactly when the id is present; the invariant survives.
   */
  function Update(s: Store, id: int, r: TaskRequest): (res: (Option<Task>, Store))
    ensures res.0.Some? <==> HasId(s.tasks, id)
    ensures Valid(s) ==> Valid(res.1)
  {
    var k := IndexOfFirst(s.tasks, id);
    if k != -1 then
      var t := Task(id, r.content, r.isDone);
      (Some(t), s.(tasks := s.tasks[k := t]))
    else
      (None, s)
  }

  /**
    `delete`: every task with the id is removed; the result is true exactly
    when some task had the id. The invariant survives.
   */
  function Delete(s: Store, id: int): (res: (bool, Store))
    ensures res.0 <==> HasId(s.tasks, id)
    ensures Valid(s) ==> Valid(res.1)
  {
    var kept := RemoveId(s.tasks, id);
    RemovedIffPresent(s.tasks, id);
    RemoveKeepsValid(s, id);
    (|kept| < |s.tasks|, s.(tasks := kept))
  }

  // ---------------------------------------------------------------------
  // What the operations promise

  /**
    `add` hands out the counter, which no stored task holds, appends the new
    task after the untouched old ones, increments the counter by one and keeps
    the invariant.
   */
  lemma AddSpec(s: Store, r: TaskRequest)
    requires Valid(s)
    ensures var (t, s') := Add(s, r);
      && t.id == s.nextId && t.content == r.content && t.isDone == r.isDone
      && !HasId(s.tasks, t.id)
      && |s'.tasks| == |s.tasks| + 1 && s'.tasks[|s.tasks|] == t
      && (forall i :: 0 <= i < |s.tasks| ==> s'.tasks[i] == s.tasks[i])
      && s'.nextId == s.nextId + 1
      && Valid(s')
  {
  }

  /** A task just created can be read back unchanged by its id. */
  lemma AddReadBack(s: Store, r: TaskRequest)
    requires Valid(s)
    ensures var (t, s') := Add(s, r); Find(s'.tasks, t.id) == Some(t)
  {
    var (t, s') := Add(s, r);
    var u := Find(s'.tasks, t.id);
    if u.None? {
      assert s'.tasks[|s.tasks|] == t;
      FindIsFirst(s'.tasks, t.id);
    } else {
      var j :| 0 <= j < |s'.tasks| && s'.tasks[j] == u.value;
      assert j == |s.tasks|;
    }
  }

  /**
    `update` on a present id replaces the task at its first index by one with
    the same id and the request's fields; length, counter and every other index
    stay as they were. On a missing id nothing changes and nothing is returned.
   */
  lemma UpdateSpec(s: Store, id: int, r: TaskRequest)
    ensures var (res, s') := Update(s, id, r);
      var k := IndexOfFirst(s.tasks, id);
      && (res.Some? <==> HasId(s.tasks, id))
      && s'.nextId == s.nextId
      && (res.None? ==> s' == s)
      && (res.Some? ==>
            && res.value == Task(id, r.content, r.isDone)
            && |s'.tasks| == |s.tasks|
            && s'.tasks[k] == res.value
            && forall i :: 0 <= i < |s.tasks| && i != k ==> s'.tasks[i] == s.tasks[i])
  {
  }

  /** After a successful update the id reads back as the updated task. */
  lemma UpdateReadBack(s: Store, id: int, r: TaskRequest)
    requires Valid(s) && HasId(s.tasks, id)
    ensures var (res, s') := Update(s, id, r); res.Some? && Find(s'.tasks, id) == res
  {
    var (res, s') := Update(s, id, r);
    var k := IndexOfFirst(s.tasks, id);
    FindIsFirst(s'.tasks, id);
    assert s'.tasks[k].id == id;
    var k' := IndexOfFirst(s'.tasks, id);
    assert k' == k;
  }

  /**
    `delete` reports true exactly when some task had the id; afterwards no task
    has it and the counter is untouched. On a miss the store is unchanged; on a
    hit in a valid store exactly the one task is dropped, the others keeping
    their order.
   */
  lemma {:induction false} DeleteSpec(s: Store, id: int)
    ensures var (removed, s') := Delete(s, id);
      && (removed <==> HasId(s.tasks, id))
      && !HasId(s'.tasks, id)
      && s'.nextId == s.nextId
      && (!removed ==> s' == s)
      && (removed && Valid(s) ==>
            var k := IndexOfFirst(s.tasks, id);
            s'.tasks == s.tasks[..k] + s.tasks[k + 1..] && |s'.tasks| == |s.tasks| - 1)
  {
    var (removed, s') := Delete(s, id);
    RemovedIffPresent(s.tasks, id);
    RemoveIdMembers(s.tasks, id);
    forall i | 0 <= i < |s'.tasks| ensures s'.tasks[i].id != id {
      assert s'.tasks[i] in s'.tasks;
    }
    if !removed {
      RemoveMissing(s.tasks, id);
    } else if Valid(s) {
      RemoveUnique(s.tasks, id);
    }
  }

  /** After a delete, a later add never hands out the deleted id again. */
  lemma DeletedIdNotReissued(s: Store, id: int, r: TaskRequest)
    requires Valid(s) && HasId(s.tasks, id)
    ensures Add(Delete(s, id).1, r).0.id != id
  {
  }
}
