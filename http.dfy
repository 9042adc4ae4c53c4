/** HTTP responses as the controllers build them: a status and a body. */
module Http {
  import opened Wrappers
  import opened Models

  datatype HttpStatus = Ok | Created | NoContent | BadRequest | NotFound | InternalServerError
  {
    /** The numeric status code. */
    function Code(): (c: int)
      ensures 200 <= c < 600
    {
      match this
      case Ok => 200
      case Created => 201
      case NoContent => 204
      case BadRequest => 400
      case NotFound => 404
      case InternalServerError => 500
    }
  }

  /** A response body: none, one task, a list of tasks, or an error map (whose values, like
      those of a Java HashMap, may be null). */
  datatype Body =
    | Empty
    | One(task: Task)
    | Many(tasks: seq<Task>)
    | Errors(fields: map<string, Option<string>>)

  datatype Reply = Reply(status: HttpStatus, body: Body)
}
