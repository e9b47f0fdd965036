/** The slice of util::Status and util::Task the core relies on: a status is
    an error code with a message, and a task is a slot that is resolved with
    exactly one status. */
module Tasks {

  import opened Basics

  datatype Code = Ok | Cancelled | Unknown | InvalidArgument | FailedPrecondition | Internal

  datatype Status = Status(code: Code, message: string)

  /** Status::OK, Status::CANCELLED and Status::UNKNOWN carry no message. */
  const OkStatus := Status(Ok, "")
  const CancelledStatus := Status(Cancelled, "")
  const UnknownStatus := Status(Unknown, "")

  class Task {
    /** None while pending; the status it was resolved with once done. */
    var status: Option<Status>

    constructor ()
      ensures status.None?
    {
      status := None;
    }

    predicate IsDone()
      reads this
    {
      status.Some?
    }

    /** Task::Return: the framework accepts exactly one resolution. */
    method Return(s: Status)
      requires status.None?
      modifies this
      ensures status == Some(s)
    {
      status := Some(s);
    }
  }
}
