/** The REST controller (controllers/TaskController.java). Each endpoint is a chain of guards,
    one call into the service, and a translation of the service's outcome into a response;
    the guards and the translation are pure functions, the endpoints compose them with the
    service call. */
module Controllers {
  import opened Wrappers
  import opened Exceptions
  import opened Models
  import opened Services
  import opened Http
  import ExceptionHandling

  /** The basic validation of create and full update, checked in the order title, status, due
      date: a null or empty title, a null or empty status, and a null due date each give 400
      with no body. */
  function ValidationFailure(request: TaskRecord): (r: Option<Reply>)
    ensures r.None? <==> request.title.Some? && request.title.value != ""
                         && request.status.Some? && request.status.value != ""
                         && request.dueDate.Some?
    ensures r.Some? ==> r.value == Reply(BadRequest, Empty)
  {
    if request.title == None || |request.title.value| == 0 then Some(Reply(BadRequest, Empty))
    else if request.status == None || |request.status.value| == 0 then Some(Reply(BadRequest, Empty))
    else if request.dueDate == None then Some(Reply(BadRequest, Empty))
    else None
  }

  /** statusUpdate.get("status"): null both when the key is missing and when it maps to null. */
  function RequestedStatus(statusUpdate: map<string, Option<string>>): (s: Option<string>)
    ensures s.None? <==> "status" !in statusUpdate || statusUpdate["status"].None?
    ensures s.Some? ==> Some(s.value) == statusUpdate["status"]
  {
    if "status" in statusUpdate then statusUpdate["status"] else None
  }

  /** The try/catch around a service call: success gives the endpoint's own status and body, a
      RuntimeException gives 404 with no body, and any other exception escapes to the global
      handler. */
  function Translate(outcome: Result<Body, Exception>, success: HttpStatus): (r: Reply)
    requires success != NotFound
    ensures outcome.Success? ==> r == Reply(success, outcome.value)
    ensures r.status == NotFound <==> outcome.Failure? && outcome.error.IsRuntime()
    ensures outcome.Failure? && outcome.error.IsRuntime() ==> r.body == Empty
  {
    match outcome
    case Success(body) => Reply(success, body)
    case Failure(e) => if e.IsRuntime() then Reply(NotFound, Empty) else ExceptionHandling.Handle(e)
  }

  /** The body of a successful call that returns a task. */
  function TaskBody(r: Result<Task, Exception>): Result<Body, Exception> {
    match r
    case Success(t) => Success(One(t))
    case Failure(e) => Failure(e)
  }

  /** The body of a successful call that returns nothing. */
  function NoBody(r: Outcome<Exception>): Result<Body, Exception> {
    match r
    case Pass => Success(Empty)
    case Fail(e) => Failure(e)
  }

  class TaskController {
    const service: TaskService

    ghost predicate Valid()
      reads this, service, service.repository, service.repository.table.Values
    {
      service.Valid()
    }

    constructor (service: TaskService)
      ensures this.service == service
    {
      this.service := service;
    }

    /** GET /api/tasks: always 200 with every stored task. */
    method GetAllTasks() returns (reply: Reply)
      requires Valid()
      ensures reply.status == Ok && reply.body.Many?
      ensures |reply.body.tasks| == |service.repository.table|
      ensures forall t :: t in reply.body.tasks <==> t in service.repository.table.Values
      ensures forall i, j | 0 <= i < j < |reply.body.tasks| :: reply.body.tasks[i] != reply.body.tasks[j]
    {
      var all := service.GetAllTasks();
      reply := Reply(Ok, Many(all));
    }

    /** GET /api/tasks/{id}: 200 with the stored task, or 404. */
    method GetTaskById(id: int) returns (reply: Reply)
      ensures id in service.repository.table ==> reply == Reply(Ok, One(service.repository.table[id]))
      ensures id !in service.repository.table ==> reply == Reply(NotFound, Empty)
    {
      var r := service.GetTaskById(id);
      reply := Translate(TaskBody(r), Ok);
    }

    /** POST /api/tasks: an invalid request gives 400 without calling the service; a valid one
        is saved as given and answered with 201 and the saved task. */
    method CreateTask(task: Task) returns (reply: Reply)
      requires Valid()
      modifies service.repository, task, service.repository.table.Values
      ensures Valid()
      ensures ValidationFailure(old(task.Snapshot())).Some? ==>
        && reply == Reply(BadRequest, Empty)
        && unchanged(service.repository) && unchanged(task)
        && unchanged(service.repository.table.Values)
      ensures ValidationFailure(old(task.Snapshot())).None? ==>
        && reply.status == Created && reply.body.One?
        && reply.body.task.id.Some?
        && service.repository.table == old(service.repository.table)[reply.body.task.id.value := reply.body.task]
        && (old(task.id).None? ==>
              && reply.body.task == task
              && reply.body.task.id.value !in old(service.repository.table)
              && service.repository.Contents() ==
                   old(service.repository.Contents())[task.id.value := old(task.Snapshot()).(id := task.id)])
        && (old(task.id).Some? ==>
              && reply.body.task.id == old(task.id)
              && unchanged(task)
              && service.repository.Contents() ==
                   old(service.repository.Contents())[old(task.id).value := old(task.Snapshot())])
    {
      var invalid := ValidationFailure(task.Snapshot());
      if invalid.Some? {
        reply := invalid.value;
        return;
      }
      var created := service.CreateTask(task);
      reply := Reply(Created, One(created));
    }

    /** PUT /api/tasks/{id}: the request is validated before the id is looked up, so an invalid
        request gives 400 whether or not the id exists; then 404 for an absent id, or 200 with
        the updated task. */
    method UpdateTask(id: int, task: Task) returns (reply: Reply)
      requires Valid()
      modifies service.repository, service.repository.table.Values
      ensures Valid()
      ensures ValidationFailure(old(task.Snapshot())).Some? ==>
        && reply == Reply(BadRequest, Empty)
        && unchanged(service.repository) && unchanged(service.repository.table.Values)
      ensures ValidationFailure(old(task.Snapshot())).None? && id !in old(service.repository.table) ==>
        && reply == Reply(NotFound, Empty)
        && unchanged(service.repository)
        && service.repository.Contents() == old(service.repository.Contents())
      ensures ValidationFailure(old(task.Snapshot())).None? && id in old(service.repository.table) ==>
        && reply == Reply(Ok, One(old(service.repository.table)[id]))
        && service.repository.table == old(service.repository.table)
        && service.repository.Contents() == old(service.repository.Contents())[id := TaskRecord(Some(id),
             old(task.GetTitle()), old(task.GetDescription()), old(task.GetStatus()), old(task.GetDueDate()))]
    {
      var invalid := ValidationFailure(task.Snapshot());
      if invalid.Some? {
        reply := invalid.value;
        return;
      }
      var r := service.UpdateTask(id, task);
      reply := Translate(TaskBody(r), Ok);
    }

    /** PATCH /api/tasks/{id}/status: 400 only when the status is missing or null (an empty
        status goes to the service as it is); then 404 for an absent id, or 200 with the task,
        whose status alone has changed. */
    method UpdateTaskStatus(id: int, statusUpdate: map<string, Option<string>>) returns (reply: Reply)
      requires Valid()
      modifies service.repository, service.repository.table.Values
      ensures Valid()
      ensures RequestedStatus(statusUpdate).None? ==>
        && reply == Reply(BadRequest, Empty)
        && unchanged(service.repository) && unchanged(service.repository.table.Values)
      ensures RequestedStatus(statusUpdate).Some? && id !in old(service.repository.table) ==>
        && reply == Reply(NotFound, Empty)
        && unchanged(service.repository)
        && service.repository.Contents() == old(service.repository.Contents())
      ensures RequestedStatus(statusUpdate).Some? && id in old(service.repository.table) ==>
        && reply == Reply(Ok, One(old(service.repository.table)[id]))
        && service.repository.table == old(service.repository.table)
        && service.repository.Contents() == old(service.repository.Contents())[id :=
             old(service.repository.Contents())[id].(status := RequestedStatus(statusUpdate))]
    {
      var status := RequestedStatus(statusUpdate);
      if status == None {
        reply := Reply(BadRequest, Empty);
        return;
      }
      var r := service.UpdateTaskStatus(id, status);
      reply := Translate(TaskBody(r), Ok);
    }

    /** DELETE /api/tasks/{id}: 204 with no body once the task is removed, or 404. */
    method DeleteTask(id: int) returns (reply: Reply)
      requires Valid()
      modifies service.repository
      ensures Valid()
      ensures id !in old(service.repository.table) ==>
        reply == Reply(NotFound, Empty) && unchanged(service.repository)
      ensures id in old(service.repository.table) ==>
        && reply == Reply(NoContent, Empty)
        && service.repository.Contents() == old(service.repository.Contents()) - {id}
    {
      var r := service.DeleteTask(id);
      reply := Translate(NoBody(r), NoContent);
    }
  }
}
