/** Client scenarios: what a caller of the endpoints can conclude from their contracts alone. */
module Scenarios {
  import opened Wrappers
  import opened Models
  import opened Repositories
  import opened Services
  import opened Http
  import opened Controllers

  /** A fresh controller over an empty store. */
  method NewController() returns (ctl: TaskController)
    ensures fresh(ctl) && fresh(ctl.service) && fresh(ctl.service.repository)
    ensures ctl.Valid() && ctl.service.repository.table == map[]
  {
    var repository := new TaskRepository();
    var service := new TaskService(repository);
    ctl := new TaskController(service);
  }

  /** Create, read, patch the status, delete, read again: 201, 200, 200, 204, 404; the task read
      back has the fields it was created with, and the patch changes the status and not the
      title. */
  method Lifecycle(due: DateTime) returns (codes: seq<int>, fetched: TaskRecord, patched: TaskRecord)
    ensures codes == [201, 200, 200, 204, 404]
    ensures fetched.id.Some?
    ensures fetched == TaskRecord(fetched.id, Some("Task 1"), None, Some("PENDING"), Some(due))
    ensures patched == fetched.(status := Some("DONE"))
  {
    var ctl := NewController();
    var request := new Task.WithDetails(Some("Task 1"), None, Some("PENDING"), Some(due));
    var created := ctl.CreateTask(request);
    var id := created.body.task.id.value;
    var got := ctl.GetTaskById(id);
    fetched := got.body.task.Snapshot();
    var patch := ctl.UpdateTaskStatus(id, map["status" := Some("DONE")]);
    patched := patch.body.task.Snapshot();
    assert patched == ctl.service.repository.Contents()[id];
    var removed := ctl.DeleteTask(id);
    var gone := ctl.GetTaskById(id);
    codes := [created.status.Code(), got.status.Code(), patch.status.Code(),
              removed.status.Code(), gone.status.Code()];
  }

  /** A create with an empty title is refused with 400 and the store keeps its size. */
  method EmptyTitleRejected(due: DateTime) returns (code: int, before: nat, after: nat)
    ensures code == 400 && before == after == 1
  {
    var ctl := NewController();
    var first := new Task.WithDetails(Some("Task 1"), None, Some("PENDING"), Some(due));
    var _ := ctl.CreateTask(first);
    before := |ctl.service.repository.table|;
    var bad := new Task.WithDetails(Some(""), None, Some("PENDING"), Some(due));
    var refused := ctl.CreateTask(bad);
    after := |ctl.service.repository.table|;
    code := refused.status.Code();
  }

  /** A status patch whose status is the empty string is not refused: it reaches the service. */
  method EmptyStatusPassesThrough(due: DateTime) returns (code: int, status: Option<string>)
    ensures code == 200 && status == Some("")
  {
    var ctl := NewController();
    var request := new Task.WithDetails(Some("Task 1"), None, Some("PENDING"), Some(due));
    var created := ctl.CreateTask(request);
    var id := created.body.task.id.value;
    var patch := ctl.UpdateTaskStatus(id, map["status" := Some("")]);
    code := patch.status.Code();
    status := patch.body.task.GetStatus();
    assert patch.body.task.Snapshot() == ctl.service.repository.Contents()[id];
  }

  /** Once a delete has succeeded, reading the same id gives 404. */
  method DeleteThenGet(ctl: TaskController, id: int) returns (removed: Reply, fetched: Reply)
    requires ctl.Valid()
    modifies ctl.service.repository
    ensures removed.status == NoContent ==> fetched == Reply(NotFound, Empty)
    ensures removed.status == NoContent || removed.status == NotFound
  {
    removed := ctl.DeleteTask(id);
    fetched := ctl.GetTaskById(id);
  }

  /** After a successful full update, reading the id gives back the request's four fields under
      the original id. */
  method UpdateThenGet(ctl: TaskController, id: int, details: Task) returns (updated: Reply, fetched: Reply)
    requires ctl.Valid()
    modifies ctl.service.repository, ctl.service.repository.table.Values
    ensures updated.status == Ok ==>
      && fetched.status == Ok && fetched.body.One?
      && fetched.body.task.Snapshot() == TaskRecord(Some(id), old(details.GetTitle()),
           old(details.GetDescription()), old(details.GetStatus()), old(details.GetDueDate()))
  {
    updated := ctl.UpdateTask(id, details);
    fetched := ctl.GetTaskById(id);
    if updated.status == Ok {
      assert id in ctl.service.repository.table;
      assert fetched.body.task.Snapshot() == ctl.service.repository.Contents()[id];
    }
  }
}
