/**
 * `GlobalExceptionHandler`: the HTTP status and the plain-text body each kind
 * of exception is answered with.
 */
module ExceptionHandler {
  import opened Wrappers
  import opened Text
  import opened Decimal
  import opened Validation
  import opened Errors

  /** A status code and the response body. */
  datatype Response = Response(status: int, body: string)

  const NotFound: int := 404
  const BadRequest: int := 400
  const InternalServerError: int := 500

  /** `error.getField() + ": " + error.getDefaultMessage()`. */
  function FieldErrorText(e: FieldError): string {
    e.field + ": " + e.message
  }

  /** The field errors' texts, in binding-result order. */
  function FieldErrorTexts(errs: seq<FieldError>): (r: seq<string>)
    ensures |r| == |errs|
    ensures forall i :: 0 <= i < |errs| ==> r[i] == FieldErrorText(errs[i])
  {
    if errs == [] then [] else [FieldErrorText(errs[0])] + FieldErrorTexts(errs[1..])
  }

  /** The sequential left fold of `reduce((msg1, msg2) -> msg1 + ", " + msg2)` from `acc`. */
  function ReduceFrom(acc: string, rest: seq<string>): string
    decreases |rest|
  {
    if rest == [] then acc else ReduceFrom(acc + ", " + rest[0], rest[1..])
  }

  /** `stream.reduce(...)`: empty for an empty stream, otherwise the fold from the first element. */
  function Reduce(parts: seq<string>): Option<string> {
    if parts == [] then None else Some(ReduceFrom(parts[0], parts[1..]))
  }

  /** Folding the rest onto the join of a prefix joins the whole list. */
  lemma {:induction false} ReduceFromJoin(done: seq<string>, rest: seq<string>)
    requires |done| >= 1
    ensures ReduceFrom(Join(done, ", "), rest) == Join(done + rest, ", ")
    decreases |rest|
  {
    if rest == [] {
      assert done + rest == done;
    } else {
      JoinSnoc(done, rest[0], ", ");
      ReduceFromJoin(done + [rest[0]], rest[1..]);
      assert done + [rest[0]] + rest[1..] == done + rest;
    }
  }

  /** The reduction is the list joined with ", " when it has an element. */
  lemma ReduceIsJoin(parts: seq<string>)
    ensures parts == [] <==> Reduce(parts).None?
    ensures parts != [] ==> Reduce(parts) == Some(Join(parts, ", "))
  {
    if parts != [] {
      assert Join([parts[0]], ", ") == parts[0];
      ReduceFromJoin([parts[0]], parts[1..]);
      assert [parts[0]] + parts[1..] == parts;
    }
  }

  /** `handleValidationException`'s body. */
  function ValidationBody(errs: seq<FieldError>): string {
    match Reduce(FieldErrorTexts(errs))
    case Some(s) => s
    case None => "Invalid input data"
  }

  /** Java's string concatenation writes a null message as "null". */
  function MessageOrNull(m: Option<string>): string {
    if m.Some? then m.value else "null"
  }

  /**
   * The handler Spring selects for the exception, by the most specific
   * exception type it declares, and its response.
   */
  function Handle(ex: Raised): Response {
    match ex
    case TaskNotFoundException(m) => Response(NotFound, m)
    case ProjectNotFoundException(m) => Response(NotFound, m)
    case MethodArgumentNotValid(errs) => Response(BadRequest, ValidationBody(errs))
    case IllegalArgumentException(m) => Response(BadRequest, MessageOrNull(m))
    case OtherException(m) => Response(InternalServerError, "An unexpected error occurred: " + MessageOrNull(m))
  }

  /**
   * Every service failure is a client error: a missing task or project is a
   * 404 whose body is exactly the exception's message, an invalid
   * unassignment a 400 with its message.
   */
  lemma HandleServiceError(e: ServiceError)
    ensures e.TaskNotFound? ==> Handle(Raise(e)) == Response(404, "Task not found with ID: " + IntToString(e.taskId))
    ensures e.ProjectNotFound? ==> Handle(Raise(e)) == Response(404, "Project not found with ID: " + IntToString(e.projectId))
    ensures e.InvalidAssignment? ==> Handle(Raise(e)) == Response(400, "Task is not assigned to this project.")
    ensures 400 <= Handle(Raise(e)).status < 500
  {
  }

  /**
   * A validation failure is a 400 listing "field: message" for every field
   * error in order, separated by ", "; with no field errors the body is
   * "Invalid input data".
   */
  lemma HandleValidation(errs: seq<FieldError>)
    ensures Handle(MethodArgumentNotValid(errs)).status == 400
    ensures errs == [] ==> Handle(MethodArgumentNotValid(errs)).body == "Invalid input data"
    ensures errs != [] ==> Handle(MethodArgumentNotValid(errs)).body == Join(FieldErrorTexts(errs), ", ")
  {
    ReduceIsJoin(FieldErrorTexts(errs));
  }

  /** Two field errors give "f1: m1, f2: m2". */
  lemma HandleTwoFieldErrors(a: FieldError, b: FieldError)
    ensures Handle(MethodArgumentNotValid([a, b])).body
      == a.field + ": " + a.message + ", " + b.field + ": " + b.message
  {
    var texts := FieldErrorTexts([a, b]);
    assert texts == [FieldErrorText(a), FieldErrorText(b)];
    assert ReduceFrom(texts[0], texts[1..]) == ReduceFrom(texts[0] + ", " + texts[1], []);
  }

  /** Only exceptions the handler does not name specifically are server errors, and their body has the fixed prefix. */
  lemma HandleStatusClasses(ex: Raised)
    ensures Handle(ex).status == 500 <==> ex.OtherException?
    ensures Handle(ex).status == 404 <==> ex.TaskNotFoundException? || ex.ProjectNotFoundException?
    ensures ex.OtherException? ==> OccursAt(Handle(ex).body, "An unexpected error occurred: ", 0)
  {
  }
}
