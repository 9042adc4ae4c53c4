/** The global exception handler (controllers/GlobalExceptionHandler.java): it turns an exception
    that escapes a controller into an error response. */
module ExceptionHandling {
  import opened Wrappers
  import opened Text
  import opened Exceptions
  import opened Http
  import Services

  /** handleRuntimeException: the body maps "error" to the message; a message starting with
      "Task not found" gives 404, a null message or any other message 500. */
  function HandleRuntimeException(message: Option<string>): (r: Reply)
    ensures r.body == Errors(map["error" := message])
    ensures r.status == NotFound <==> message.Some? && "Task not found" <= message.value
    ensures r.status == NotFound || r.status == InternalServerError
  {
    var errors := map["error" := message];
    if message.Some? && StartsWith(message.value, "Task not found") then
      StartsWithIsPrefix(message.value, "Task not found");
      Reply(NotFound, Errors(errors))
    else
      StartsWithIsPrefix(if message.Some? then message.value else "", "Task not found");
      Reply(InternalServerError, Errors(errors))
  }

  /** handleGeneralException: always 500, with a fixed "error" text and the message under
      "message". */
  function HandleGeneralException(message: Option<string>): (r: Reply)
    ensures r.status == InternalServerError
    ensures r.body.Errors? && r.body.fields.Keys == {"error", "message"}
    ensures r.body.fields["error"] == Some("An unexpected error occurred")
    ensures r.body.fields["message"] == message
  {
    var errors := map["error" := Some("An unexpected error occurred")];
    var errors := errors["message" := message];
    Reply(InternalServerError, Errors(errors))
  }

  /** The handler chosen for an exception: the runtime one for a RuntimeException, the general
      one for any other exception. */
  function Handle(e: Exception): (r: Reply)
    ensures r.status == NotFound ==> e.IsRuntime()
    ensures !e.IsRuntime() ==> r.status == InternalServerError
  {
    if e.IsRuntime() then HandleRuntimeException(e.message) else HandleGeneralException(e.message)
  }

  /** Every not-found error the service raises, whatever the id, is answered with 404 and the
      service's message. */
  lemma ServiceNotFoundIs404(id: int)
    ensures Handle(Services.NotFound(id)) == Reply(NotFound, Errors(map["error" := Some(Services.NotFoundMessage(id))]))
  {
  }
}
