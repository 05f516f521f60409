/** The employee-status workflow of `updateEmployee`: a fixed transition
    table over the four statuses, the rule that resubmitting the current
    status is not a transition, and the stamping of `hiredOn` on entry to
    Hired. */
module Workflow {
  import opened Results
  import opened Fields
  import opened EmployeeModel
  import opened Errors

  /** The `allowedTransitions` table. */
  function AllowedTransitions(from: Status): seq<Status> {
    match from
    case ApplicationReceived => [InterviewScheduled, NotAccepted]
    case InterviewScheduled => [Hired, NotAccepted]
    case Hired => []
    case NotAccepted => []
  }

  predicate CanTransition(from: Status, to: Status) {
    to in AllowedTransitions(from)
  }

  /** A status with no outgoing transition. */
  predicate Terminal(st: Status) {
    AllowedTransitions(st) == []
  }

  /** How far along the hiring pipeline a status is. */
  function Stage(st: Status): nat {
    match st
    case ApplicationReceived => 0
    case InterviewScheduled => 1
    case Hired => 2
    case NotAccepted => 2
  }

  /** Hired and Not Accepted are the terminal states, and every allowed
      transition moves strictly forward, so no status is ever re-entered and
      only Interview Scheduled leads to Hired. */
  lemma TransitionTable(from: Status, to: Status)
    ensures Terminal(from) <==> from == Hired || from == NotAccepted
    ensures CanTransition(from, to) ==> Stage(from) < Stage(to)
    ensures CanTransition(from, Hired) <==> from == InterviewScheduled
    ensures CanTransition(from, NotAccepted) <==> !Terminal(from)
  {
  }

  /** The status step of an update: with no status in the request the record
      is unchanged; the current status resubmitted skips the table; any other
      value must be a listed successor, and entering Hired stamps `hiredOn`
      with `now`. */
  function ApplyStatus(e: Employee, requested: Option<string>, now: int): (r: Result<Employee, Error>)
    ensures !Supplied(requested) ==> r == Ok(e)
    ensures r.Err? <==>
      && Supplied(requested)
      && ParseStatus(requested.value) != Some(e.employeeStatus)
      && (ParseStatus(requested.value).None? || !CanTransition(e.employeeStatus, ParseStatus(requested.value).value))
    ensures r.Err? ==> r.error == InvalidTransition(e.employeeStatus, requested.value)
    ensures r.Ok? ==> r.value == e.(employeeStatus := r.value.employeeStatus, hiredOn := r.value.hiredOn)
    ensures r.Ok? && Supplied(requested) ==> StatusName(r.value.employeeStatus) == requested.value
    ensures r.Ok? && r.value.employeeStatus != e.employeeStatus ==>
      CanTransition(e.employeeStatus, r.value.employeeStatus)
    ensures r.Ok? && r.value.hiredOn != e.hiredOn ==>
      r.value.hiredOn == Some(now) && r.value.employeeStatus == Hired && e.employeeStatus != Hired
    ensures r.Ok? && r.value.employeeStatus == Hired && e.employeeStatus != Hired ==> r.value.hiredOn == Some(now)
  {
    if !Supplied(requested) then
      Ok(e)
    else
      var current := e.employeeStatus;
      match ParseStatus(requested.value)
      case None => Err(InvalidTransition(current, requested.value))
      case Some(next) =>
        if next == current then
          Ok(e)
        else if !CanTransition(current, next) then
          Err(InvalidTransition(current, requested.value))
        else if next == Hired then
          Ok(e.(employeeStatus := next, hiredOn := Some(now)))
        else
          Ok(e.(employeeStatus := next))
  }

  /** `hiredOn` is set exactly when the status is Hired. */
  predicate HiringStamped(e: Employee) {
    e.hiredOn.Some? <==> e.employeeStatus == Hired
  }

  /** A status step keeps `hiredOn` set exactly while Hired, and once Hired,
      neither the status nor the stamp changes again. */
  lemma ApplyStatusKeepsStamp(e: Employee, requested: Option<string>, now: int)
    requires HiringStamped(e)
    requires ApplyStatus(e, requested, now).Ok?
    ensures HiringStamped(ApplyStatus(e, requested, now).value)
    ensures Terminal(e.employeeStatus) ==> ApplyStatus(e, requested, now).value == e
  {
  }

  /** Walking Application Received, Interview Scheduled, Hired stamps
      `hiredOn` only at the last step, and going back from Hired fails. */
  lemma HiringWalk(e: Employee, t1: int, t2: int, t3: int)
    requires e.employeeStatus == ApplicationReceived && e.hiredOn == None
    ensures ApplyStatus(e, Some("Interview Scheduled"), t1).Ok?
    ensures ApplyStatus(e, Some("Interview Scheduled"), t1).value.hiredOn == None
    ensures ApplyStatus(ApplyStatus(e, Some("Interview Scheduled"), t1).value, Some("Hired"), t2)
         == Ok(e.(employeeStatus := Hired, hiredOn := Some(t2)))
    ensures ApplyStatus(e.(employeeStatus := Hired, hiredOn := Some(t2)), Some("Interview Scheduled"), t3)
         == Err(InvalidTransition(Hired, "Interview Scheduled"))
  {
  }
}
