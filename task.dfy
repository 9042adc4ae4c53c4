/** The Task entity (models/Task.java): a mutable record whose id is assigned by the store. */
module Models {
  import opened Wrappers

  /** java.time.LocalDateTime, treated as an opaque value: it is only stored and copied. */
  type DateTime(==)

  /** The state of a Task object at one moment, as its five getters report it. */
  datatype TaskRecord = TaskRecord(
    id: Option<int>,
    title: Option<string>,
    description: Option<string>,
    status: Option<string>,
    dueDate: Option<DateTime>)

  class Task {
    var id: Option<int>
    var title: Option<string>
    var description: Option<string>
    var status: Option<string>
    var dueDate: Option<DateTime>

    function GetId(): Option<int> reads this { id }
    function GetTitle(): Option<string> reads this { title }
    function GetDescription(): Option<string> reads this { description }
    function GetStatus(): Option<string> reads this { status }
    function GetDueDate(): Option<DateTime> reads this { dueDate }

    /** What the five getters return, together. */
    function Snapshot(): TaskRecord
      reads this
    {
      TaskRecord(GetId(), GetTitle(), GetDescription(), GetStatus(), GetDueDate())
    }

    /** The default constructor: every field is null. */
    constructor ()
      ensures Snapshot() == TaskRecord(None, None, None, None, None)
    {
      id, title, description, status, dueDate := None, None, None, None, None;
    }

    /** The four-argument constructor: the details are taken as given and the id stays unset. */
    constructor WithDetails(title: Option<string>, description: Option<string>,
                            status: Option<string>, dueDate: Option<DateTime>)
      ensures GetId() == None
      ensures GetTitle() == title && GetDescription() == description
      ensures GetStatus() == status && GetDueDate() == dueDate
    {
      this.id := None;
      this.title := title;
      this.description := description;
      this.status := status;
      this.dueDate := dueDate;
    }

    method SetId(id: Option<int>)
      modifies this
      ensures GetId() == id
      ensures Snapshot() == old(Snapshot()).(id := id)
    {
      this.id := id;
    }

    method SetTitle(title: Option<string>)
      modifies this
      ensures GetTitle() == title
      ensures Snapshot() == old(Snapshot()).(title := title)
    {
      this.title := title;
    }

    method SetDescription(description: Option<string>)
      modifies this
      ensures GetDescription() == description
      ensures Snapshot() == old(Snapshot()).(description := description)
    {
      this.description := description;
    }

    method SetStatus(status: Option<string>)
      modifies this
      ensures GetStatus() == status
      ensures Snapshot() == old(Snapshot()).(status := status)
    {
      this.status := status;
    }

    method SetDueDate(dueDate: Option<DateTime>)
      modifies this
      ensures GetDueDate() == dueDate
      ensures Snapshot() == old(Snapshot()).(dueDate := dueDate)
    {
      this.dueDate := dueDate;
    }
  }
}
