/** The employee schema: company and department references, the four-valued
    status with its default, the required text fields with the mobile and
    email formats, the optional `hiredOn` time, and the derived
    `daysEmployed`. Times are integer milliseconds. */
module EmployeeModel {
  import opened Results
  import opened Fields
  import opened Validation

  /** The `employeeStatus` enum. */
  datatype Status = ApplicationReceived | InterviewScheduled | Hired | NotAccepted

  /** The status a new employee record starts in. */
  const DefaultStatus: Status := ApplicationReceived

  /** The enum value as stored and as sent in a request. */
  function StatusName(st: Status): string {
    match st
    case ApplicationReceived => "Application Received"
    case InterviewScheduled => "Interview Scheduled"
    case Hired => "Hired"
    case NotAccepted => "Not Accepted"
  }

  /** Reads a requested status; any string other than the four enum names
      denotes no status at all. */
  function ParseStatus(s: string): (r: Option<Status>)
    ensures r.Some? ==> StatusName(r.value) == s
    ensures r.None? ==> forall st: Status :: StatusName(st) != s
  {
    if s == "Application Received" then Some(ApplicationReceived)
    else if s == "Interview Scheduled" then Some(InterviewScheduled)
    else if s == "Hired" then Some(Hired)
    else if s == "Not Accepted" then Some(NotAccepted)
    else None
  }

  /** Every enum value reads back as itself. */
  lemma ParseStatusName(st: Status)
    ensures ParseStatus(StatusName(st)) == Some(st)
  {
  }

  datatype Employee = Employee(
    company: Id,
    department: Id,
    employeeStatus: Status,
    employeeName: string,
    email: string,
    mobileNumber: string,
    address: string,
    designation: string,
    hiredOn: Option<int>)

  /** The schema's validators: five required strings, the email pattern and
      the ten-digit mobile pattern (the two references are `Id`s, always
      present; the status is an enum value by its type). */
  predicate ValidEmployee(e: Employee) {
    && Required(e.employeeName)
    && Required(e.email) && ValidEmail(e.email)
    && Required(e.mobileNumber) && ValidMobile(e.mobileNumber)
    && Required(e.address)
    && Required(e.designation)
  }

  /** Milliseconds in a day. */
  const OneDay: int := 24 * 60 * 60 * 1000

  function Abs(x: int): (r: nat)
    ensures r == x || r == -x
  {
    if x < 0 then -x else x
  }

  /** The `daysEmployed` virtual: 0 unless the employee is Hired with a
      `hiredOn` time; otherwise `Math.round(|now - hiredOn| / OneDay)`,
      computed on integers (halves round up). */
  function DaysEmployed(e: Employee, now: int): (days: nat)
    ensures !(e.hiredOn.Some? && e.employeeStatus == Hired) ==> days == 0
    ensures e.hiredOn.Some? && e.employeeStatus == Hired ==>
      days * OneDay <= Abs(now - e.hiredOn.value) + OneDay / 2 < (days + 1) * OneDay
  {
    if e.hiredOn.Some? && e.employeeStatus == Hired then
      (Abs(now - e.hiredOn.value) + OneDay / 2) / OneDay
    else
      0
  }

  /** `daysEmployed` is the nearest whole number of days: within half a day
      of the elapsed time either way, and it grows with `now`. */
  lemma DaysEmployedNearest(e: Employee, now: int, later: int)
    requires e.hiredOn.Some? && e.employeeStatus == Hired
    requires e.hiredOn.value <= now <= later
    ensures 2 * DaysEmployed(e, now) * OneDay - OneDay <= 2 * (now - e.hiredOn.value)
    ensures 2 * (now - e.hiredOn.value) < 2 * DaysEmployed(e, now) * OneDay + OneDay
    ensures DaysEmployed(e, now) <= DaysEmployed(e, later)
  {
  }
}
