/** The task service (services/TaskService.java): every operation on one id first looks the
    task up and fails with a not-found error when there is none. */
module Services {
  import opened Wrappers
  import opened Text
  import opened Exceptions
  import opened Models
  import opened Repositories

  /** The message of the not-found error: "Task not found with id: " followed by the id. */
  function NotFoundMessage(id: int): (msg: string)
    ensures StartsWith(msg, "Task not found with id: ")
  {
    StartsWithAppend("Task not found with id: ", LongToString(id));
    "Task not found with id: " + LongToString(id)
  }

  /** The not-found message carries the requested id: two ids never share a message. */
  lemma NotFoundMessageIdentifiesId(a: int, b: int)
    requires NotFoundMessage(a) == NotFoundMessage(b)
    ensures a == b
  {
    var prefix := "Task not found with id: ";
    assert NotFoundMessage(a)[|prefix|..] == LongToString(a);
    assert NotFoundMessage(b)[|prefix|..] == LongToString(b);
    LongToStringInjective(a, b);
  }

  /** The EntityNotFoundException thrown for an absent id. */
  function NotFound(id: int): Exception {
    EntityNotFound(Some(NotFoundMessage(id)))
  }

  class TaskService {
    const repository: TaskRepository

    ghost predicate Valid()
      reads this, repository, repository.table.Values
    {
      repository.Valid()
    }

    constructor (repository: TaskRepository)
      ensures this.repository == repository
    {
      this.repository := repository;
    }

    /** getAllTasks: the store's findAll result, unchanged. */
    method GetAllTasks() returns (all: seq<Task>)
      requires Valid()
      ensures |all| == |repository.table|
      ensures forall t :: t in all <==> t in repository.table.Values
      ensures forall i, j | 0 <= i < j < |all| :: all[i] != all[j]
    {
      all := repository.FindAll();
    }

    /** getTaskById: the stored task, or the not-found error for the id. */
    method GetTaskById(id: int) returns (r: Result<Task, Exception>)
      ensures id in repository.table ==> r == Success(repository.table[id])
      ensures id !in repository.table ==> r == Failure(NotFound(id))
    {
      var found := repository.FindById(id);
      r := if found.Some? then Success(found.value) else Failure(NotFound(id));
    }

    /** createTask: the task goes to save as given, so an id set by the client selects the
        merge path rather than being cleared. */
    method CreateTask(task: Task) returns (created: Task)
      requires Valid()
      modifies repository, task, repository.table.Values
      ensures Valid()
      ensures created.id.Some? && repository.table == old(repository.table)[created.id.value := created]
      ensures old(task.id).None? ==>
        && created == task
        && created.id.value !in old(repository.table)
        && repository.Contents() ==
             old(repository.Contents())[created.id.value := old(task.Snapshot()).(id := created.id)]
      ensures old(task.id).Some? ==>
        && created.id == old(task.id)
        && unchanged(task)
        && repository.Contents() == old(repository.Contents())[created.id.value := old(task.Snapshot())]
        && (created.id.value in old(repository.table) ==> created == old(repository.table)[created.id.value])
        && (created.id.value !in old(repository.table) ==> fresh(created))
    {
      created := repository.Save(task);
    }

    /** updateTask: the stored task takes the title, description, status and due date of the
        details and keeps its id; an absent id fails and leaves the store as it was. */
    method UpdateTask(id: int, details: Task) returns (r: Result<Task, Exception>)
      requires Valid()
      modifies repository, repository.table.Values
      ensures Valid()
      ensures id !in old(repository.table) ==>
        && r == Failure(NotFound(id))
        && unchanged(repository)
        && repository.Contents() == old(repository.Contents())
      ensures id in old(repository.table) ==>
        && r == Success(old(repository.table)[id])
        && repository.table == old(repository.table)
        && repository.Contents() == old(repository.Contents())[id := TaskRecord(Some(id),
             old(details.GetTitle()), old(details.GetDescription()),
             old(details.GetStatus()), old(details.GetDueDate()))]
    {
      var found := GetTaskById(id);
      if found.Failure? {
        r := Failure(found.error);
        return;
      }
      var task := found.value;
      ghost var before := repository.Contents();
      ghost var want := TaskRecord(Some(id), details.GetTitle(), details.GetDescription(),
                                   details.GetStatus(), details.GetDueDate());
      task.SetTitle(details.GetTitle());
      assert details.GetDescription() == want.description && details.GetStatus() == want.status
        && details.GetDueDate() == want.dueDate;
      task.SetDescription(details.GetDescription());
      assert details.GetStatus() == want.status && details.GetDueDate() == want.dueDate;
      task.SetStatus(details.GetStatus());
      assert details.GetDueDate() == want.dueDate;
      task.SetDueDate(details.GetDueDate());
      assert task.Snapshot() == want;
      forall k | k in repository.table && k != id ensures repository.table[k].Snapshot() == before[k] {
        assert repository.table[k] != task;
      }
      ChangedAt(repository, id, before);
      ghost var table, mid := repository.table, repository.Contents();
      var saved := repository.Save(task);
      UpdateSame(table, id, task);
      UpdateSame(mid, id, want);
      r := Success(saved);
    }

    /** updateTaskStatus: only the status of the stored task changes; an absent id fails and
        leaves the store as it was. */
    method UpdateTaskStatus(id: int, status: Option<string>) returns (r: Result<Task, Exception>)
      requires Valid()
      modifies repository, repository.table.Values
      ensures Valid()
      ensures id !in old(repository.table) ==>
        && r == Failure(NotFound(id))
        && unchanged(repository)
        && repository.Contents() == old(repository.Contents())
      ensures id in old(repository.table) ==>
        && r == Success(old(repository.table)[id])
        && repository.table == old(repository.table)
        && repository.Contents() == old(repository.Contents())[id := old(repository.Contents())[id].(status := status)]
    {
      var found := GetTaskById(id);
      if found.Failure? {
        r := Failure(found.error);
        return;
      }
      var task := found.value;
      ghost var before := repository.Contents();
      task.SetStatus(status);
      forall k | k in repository.table && k != id ensures repository.table[k].Snapshot() == before[k] {
        assert repository.table[k] != task;
      }
      ChangedAt(repository, id, before);
      ghost var table, mid := repository.table, repository.Contents();
      var saved := repository.Save(task);
      UpdateSame(table, id, task);
      UpdateSame(mid, id, before[id].(status := status));
      r := Success(saved);
    }

    /** deleteTask: the task with the id is removed; an absent id fails and leaves the store
        as it was. */
    method DeleteTask(id: int) returns (r: Outcome<Exception>)
      requires Valid()
      modifies repository
      ensures Valid()
      ensures id !in old(repository.table) ==>
        r == Fail(NotFound(id)) && unchanged(repository)
      ensures id in old(repository.table) ==>
        && r == Pass
        && repository.table == old(repository.table) - {id}
        && repository.Contents() == old(repository.Contents()) - {id}
    {
      var found := GetTaskById(id);
      if found.Failure? {
        r := Fail(found.error);
        return;
      }
      repository.Delete(found.value);
      r := Pass;
    }
  }
}
