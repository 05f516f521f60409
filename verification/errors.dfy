/** The error kinds an operation fails with. The controllers answer NotFound
    with 404 and the errors they raise themselves with 400; validation and
    unique-index failures are raised by storage, and the status they get is
    set by an error middleware that is not part of this model. */
module Errors {
  import opened EmployeeModel

  /** The collection a failed lookup was made in; it selects the
      "... not found" message. */
  datatype Collection = Companies | Departments | Employees

  datatype Error =
    | NotFound(collection: Collection)
      /** The department named in a new employee belongs to another company. */
    | InvalidReference
      /** A delete refused because the record still has children. */
    | PreconditionFailed
      /** A status change outside the transition table; carries both states. */
    | InvalidTransition(from: Status, to: string)
      /** A schema validator (required field, email or mobile format) failed. */
    | ValidationError
      /** The unique index on `companyName` refused the write. */
    | DuplicateKey
}
