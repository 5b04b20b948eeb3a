/** The helpers that only the older `core` module has: the group-based
    teacher check and the request handler's error page. (Its queue, executor,
    hashing, image removal and timeout decorator are the same as in the
    newer modules and are modelled there.) */
module Core {
  import opened Common

  /** `teacher_only` (group check): a user outside the `teacher` group gets
      HTTP 403; members reach the decorated method with the call unchanged. */
  function TeacherOnlyByGroup<S>(user: User, call: Call<S>): (r: Gate<S>)
    ensures r == Forbidden(403) <==> forall i :: 0 <= i < |user.groups| ==> user.groups[i] != "teacher"
    ensures r.Forward? ==> r.call == call
  {
    if "teacher" !in user.groups then Forbidden(403) else Forward(call)
  }

  const AccessDenied := "Zugriff verweigert!"
  const InternalError := "Interner Serverfehler!"

  /** The message of the error page: access denied for 403, an internal
      server error for every other status. */
  function ErrorMessage(status: int): (msg: string)
    ensures msg == AccessDenied <==> status == 403
    ensures msg == InternalError <==> status != 403
  {
    if status == 403 then AccessDenied else InternalError
  }

  /** A page rendered from a template with the service prefix and a message. */
  datatype Page = Page(template: string, base: string, msg: string)

  class CustomRequestHandler {
    const prefix: string
    var status: int
    var rendered: Option<Page>

    constructor (prefix: string)
      ensures this.prefix == prefix && status == 200 && rendered == None
    {
      this.prefix := prefix;
      status := 200;
      rendered := None;
    }

    /** `write_error`: the response takes the given status and shows the
        error page with the message for that status. */
    method WriteError(statusCode: int)
      modifies this
      ensures status == statusCode
      ensures rendered == Some(Page("error.html", prefix, ErrorMessage(statusCode)))
    {
      status := statusCode;
      rendered := Some(Page("error.html", prefix, ErrorMessage(statusCode)));
    }
  }
}
