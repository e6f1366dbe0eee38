/** The registry of background review tasks: one record per task id,
    holding a status text and, once finished, a result. */
module TaskManagerService {
  import opened Wrappers

  /** A task record {"status": ..., "result": ...}; a None result is Python's None. */
  datatype Task<R> = Task(status: string, result: Option<R>)

  const Starting := "starting"
  const Done := "done"
  const NotFound := "not_found"

  /** `tasks.get(id, {"status": "not_found", "result": None})`. */
  function Lookup<R>(tasks: map<string, Task<R>>, id: string): (t: Task<R>)
    ensures id in tasks ==> t == tasks[id]
    ensures id !in tasks ==> t.status == NotFound && t.result.None?
  {
    if id in tasks then tasks[id] else Task(NotFound, None)
  }

  /** The registry after `start_task` registers `id`. */
  function Registered<R>(tasks: map<string, Task<R>>, id: string): (after: map<string, Task<R>>)
    ensures after.Keys == tasks.Keys + {id}
    ensures Lookup(after, id) == Task(Starting, None)
    ensures forall other :: other in tasks && other != id ==> after[other] == tasks[other]
  {
    tasks[id := Task(Starting, None)]
  }

  /** The registry after `update_status(id, status)`. */
  function WithStatus<R>(tasks: map<string, Task<R>>, id: string, status: string): (after: map<string, Task<R>>)
    ensures after.Keys == tasks.Keys
    ensures id in tasks ==> after[id] == Task(status, tasks[id].result)
    ensures forall other :: other in tasks && other != id ==> after[other] == tasks[other]
  {
    if id in tasks then tasks[id := tasks[id].(status := status)] else tasks
  }

  /** The registry after `complete(id, result)`. */
  function WithResult<R>(tasks: map<string, Task<R>>, id: string, result: Option<R>): (after: map<string, Task<R>>)
    ensures after.Keys == tasks.Keys
    ensures id in tasks ==> after[id] == Task(Done, result)
    ensures forall other :: other in tasks && other != id ==> after[other] == tasks[other]
  {
    if id in tasks then tasks[id := Task(Done, result)] else tasks
  }

  /** An id that was never registered cannot be updated or completed, and
      stays unknown. */
  lemma UnknownIdIsIgnored<R>(tasks: map<string, Task<R>>, id: string, status: string, result: Option<R>)
    requires id !in tasks
    ensures WithStatus(tasks, id, status) == tasks
    ensures WithResult(tasks, id, result) == tasks
    ensures Lookup(WithResult(WithStatus(tasks, id, status), id, result), id) == Task(NotFound, None)
  {
  }

  /** The life of one task: registered as starting, any number of status
      updates, then done with its result. */
  lemma {:induction false} TaskLifecycle<R>(tasks: map<string, Task<R>>, id: string, statuses: seq<string>, result: Option<R>)
    ensures Lookup(WithResult(Updates(Registered(tasks, id), id, statuses), id, result), id) == Task(Done, result)
    ensures Lookup(Updates(Registered(tasks, id), id, statuses), id).result.None?
    ensures statuses != [] ==> Lookup(Updates(Registered(tasks, id), id, statuses), id).status == statuses[|statuses| - 1]
  {
    UpdatesKeepResult(Registered(tasks, id), id, statuses);
  }

  /** Status updates applied in order. */
  function Updates<R>(tasks: map<string, Task<R>>, id: string, statuses: seq<string>): map<string, Task<R>>
    decreases |statuses|
  {
    if statuses == [] then tasks
    else WithStatus(Updates(tasks, id, statuses[..|statuses| - 1]), id, statuses[|statuses| - 1])
  }

  lemma {:induction false} UpdatesKeepResult<R>(tasks: map<string, Task<R>>, id: string, statuses: seq<string>)
    requires id in tasks
    ensures Updates(tasks, id, statuses).Keys == tasks.Keys
    ensures Updates(tasks, id, statuses)[id].result == tasks[id].result
    ensures statuses != [] ==> Updates(tasks, id, statuses)[id].status == statuses[|statuses| - 1]
    ensures statuses == [] ==> Updates(tasks, id, statuses)[id] == tasks[id]
    decreases |statuses|
  {
    if statuses != [] {
      UpdatesKeepResult(tasks, id, statuses[..|statuses| - 1]);
    }
  }

  /** Work on one task never shows in another task's record. */
  lemma OtherTasksUnaffected<R>(tasks: map<string, Task<R>>, id: string, other: string, status: string, result: Option<R>)
    requires other != id
    ensures Lookup(WithStatus(tasks, id, status), other) == Lookup(tasks, other)
    ensures Lookup(WithResult(tasks, id, result), other) == Lookup(tasks, other)
  {
  }

  /** `TaskManager`: the registry, updated in place. */
  class TaskManager<R> {
    var tasks: map<string, Task<R>>

    /** `__init__`: no tasks. */
    constructor()
      ensures tasks == map[]
    {
      tasks := map[];
    }

    /** `start_task`, registration only: `taskId` stands for the fresh UUID
        and is returned; the worker thread is not modelled. */
    method StartTask(taskId: string) returns (id: string)
      modifies this
      ensures id == taskId
      ensures tasks == Registered(old(tasks), taskId)
    {
      tasks := tasks[taskId := Task(Starting, None)];
      id := taskId;
    }

    /** `update_status`. */
    method UpdateStatus(taskId: string, status: string)
      modifies this
      ensures tasks == WithStatus(old(tasks), taskId, status)
    {
      if taskId in tasks {
        tasks := tasks[taskId := tasks[taskId].(status := status)];
      }
    }

    /** `complete`. */
    method Complete(taskId: string, result: Option<R>)
      modifies this
      ensures tasks == WithResult(old(tasks), taskId, result)
    {
      if taskId in tasks {
        tasks := tasks[taskId := Task(Done, result)];
      }
    }

    /** `get_task_status`: a read that registers nothing. */
    function GetTaskStatus(taskId: string): (t: Task<R>)
      reads this
      ensures taskId in tasks ==> t == tasks[taskId]
      ensures taskId !in tasks ==> t == Task(NotFound, None)
    {
      Lookup(tasks, taskId)
    }
  }
}
