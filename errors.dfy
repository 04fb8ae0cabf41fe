/**
 * The exceptions the services throw and the exceptions that reach the
 * global handler, with the messages they carry.
 */
module Errors {
  import opened Wrappers
  import opened Decimal
  import opened Validation

  /** What a service operation can fail with. */
  datatype ServiceError =
    | TaskNotFound(taskId: int)
    | ProjectNotFound(projectId: int)
    | InvalidAssignment

  /** `new TaskNotFoundException(id).getMessage()`. */
  function TaskNotFoundMessage(id: int): string {
    "Task not found with ID: " + IntToString(id)
  }

  /** `new ProjectNotFoundException(id).getMessage()`. */
  function ProjectNotFoundMessage(id: int): string {
    "Project not found with ID: " + IntToString(id)
  }

  /** The message of the IllegalArgumentException that rejects an unassignment. */
  const InvalidAssignmentMessage: string := "Task is not assigned to this project."

  /** The exceptions the handler distinguishes; `message` is `getMessage()`, possibly null. */
  datatype Raised =
    | TaskNotFoundException(message: string)
    | ProjectNotFoundException(message: string)
    | MethodArgumentNotValid(fieldErrors: seq<FieldError>)
    | IllegalArgumentException(argMessage: Option<string>)
    | OtherException(otherMessage: Option<string>)

  /** The exception object a service failure is thrown as. */
  function Raise(e: ServiceError): (r: Raised)
    ensures e.TaskNotFound? <==> r.TaskNotFoundException?
    ensures e.ProjectNotFound? <==> r.ProjectNotFoundException?
    ensures e.InvalidAssignment? <==> r == IllegalArgumentException(Some(InvalidAssignmentMessage))
  {
    match e
    case TaskNotFound(id) => TaskNotFoundException(TaskNotFoundMessage(id))
    case ProjectNotFound(id) => ProjectNotFoundException(ProjectNotFoundMessage(id))
    case InvalidAssignment => IllegalArgumentException(Some(InvalidAssignmentMessage))
  }

  /**
   * A not-found message names the id it was raised for: within the range of a
   * Java `Long`, different ids give different messages, and the task and the
   * project messages never coincide.
   */
  lemma NotFoundMessagesDistinguish(a: int, b: int)
    requires InLongRange(a) && InLongRange(b)
    ensures TaskNotFoundMessage(a) == TaskNotFoundMessage(b) ==> a == b
    ensures ProjectNotFoundMessage(a) == ProjectNotFoundMessage(b) ==> a == b
    ensures TaskNotFoundMessage(a) != ProjectNotFoundMessage(b)
  {
    var tp := "Task not found with ID: ";
    var pp := "Project not found with ID: ";
    if TaskNotFoundMessage(a) == TaskNotFoundMessage(b) {
      assert IntToString(a) == TaskNotFoundMessage(a)[|tp|..];
      assert IntToString(b) == TaskNotFoundMessage(b)[|tp|..];
      IntToStringInjective(a, b);
    }
    if ProjectNotFoundMessage(a) == ProjectNotFoundMessage(b) {
      assert IntToString(a) == ProjectNotFoundMessage(a)[|pp|..];
      assert IntToString(b) == ProjectNotFoundMessage(b)[|pp|..];
      IntToStringInjective(a, b);
    }
    assert TaskNotFoundMessage(a)[0] == 'T' && ProjectNotFoundMessage(b)[0] == 'P';
  }

  /** The message of the test fixtures: id 1 is written without padding or sign. */
  lemma NotFoundMessageOfOne()
    ensures TaskNotFoundMessage(1) == "Task not found with ID: 1"
    ensures ProjectNotFoundMessage(1) == "Project not found with ID: 1"
  {
    assert IntToString(1) == "1";
  }
}
