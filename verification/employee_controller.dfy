/** The employee controller: read one employee, create one in a department
    of the named company, update it (status workflow and partial update of
    the text fields), and delete it. Creating and deleting keep both parents'
    employee counters. */
module EmployeeController {
  import opened Results
  import opened Fields
  import opened Errors
  import opened Validation
  import opened CompanyModel
  import opened DepartmentModel
  import opened EmployeeModel
  import opened Workflow
  import opened Store

  /** The request body of an employee write. */
  datatype EmployeeBody = EmployeeBody(
    company: Option<Id>,
    department: Option<Id>,
    employeeStatus: Option<string>,
    employeeName: Option<string>,
    email: Option<string>,
    mobileNumber: Option<string>,
    address: Option<string>,
    designation: Option<string>)

  /** Every field a new employee needs is supplied and well formed. */
  predicate Complete(body: EmployeeBody) {
    && Supplied(body.employeeName)
    && Supplied(body.email) && ValidEmail(body.email.value)
    && Supplied(body.mobileNumber) && ValidMobile(body.mobileNumber.value)
    && Supplied(body.address)
    && Supplied(body.designation)
  }

  /** `getEmployee`: the stored record, or NotFound. */
  function GetEmployee(s: Store, id: Id): (r: Result<Employee, Error>)
    ensures r.Ok? <==> id in s.employees
    ensures r.Ok? ==> r.value == s.employees[id]
    ensures r.Err? ==> r.error == NotFound(Employees)
  {
    if id in s.employees then Ok(s.employees[id]) else Err(NotFound(Employees))
  }

  /** The record `Employee.create` builds from a request: the given
      references and fields, the default status, no `hiredOn`. It passes the
      schema's validators exactly when the request is complete. */
  function NewEmployee(company: Id, department: Id, body: EmployeeBody): (e: Employee)
    ensures e.company == company && e.department == department
    ensures e.employeeStatus == ApplicationReceived && e.hiredOn == None && HiringStamped(e)
    ensures ValidEmployee(e) <==> Complete(body)
  {
    Employee(company, department, DefaultStatus,
      Text(body.employeeName), Text(body.email), Text(body.mobileNumber),
      Text(body.address), Text(body.designation), None)
  }

  /** `createEmployee`: the department must exist and belong to the named
      company, and the fields must validate. The new employee starts in
      Application Received; the department's counter goes up by one, and the
      company's too when the company is there (a missing company is skipped,
      not an error). */
  function CreateEmployee(s: Store, body: EmployeeBody): (r: Result<Store, Error>)
    ensures r == Err(NotFound(Departments)) <==> body.department.None? || body.department.value !in s.departments
    ensures r == Err(InvalidReference) <==>
      && body.department.Some? && body.department.value in s.departments
      && body.company != Some(s.departments[body.department.value].company)
    ensures r == Err(ValidationError) <==>
      && body.department.Some? && body.department.value in s.departments
      && body.company == Some(s.departments[body.department.value].company)
      && !Complete(body)
    ensures r.Ok? <==>
      && body.department.Some? && body.department.value in s.departments
      && body.company == Some(s.departments[body.department.value].company)
      && Complete(body)
    ensures r.Ok? ==> r.value.employees.Keys == s.employees.Keys + {s.nextId}
    ensures r.Ok? ==>
      var did := body.department.value;
      var cid := body.company.value;
      var e := r.value.employees[s.nextId];
      && did in s.departments && Complete(body)
      && r.value.nextId > s.nextId
      && e.company == cid && e.department == did
      && e.employeeStatus == ApplicationReceived && e.hiredOn == None
      && e.employeeName == body.employeeName.value && e.email == body.email.value
      && e.mobileNumber == body.mobileNumber.value && e.address == body.address.value
      && e.designation == body.designation.value
      && KeepsOthers(s.employees, r.value.employees, {s.nextId})
      && r.value.departments.Keys == s.departments.Keys
      && r.value.departments[did] == s.departments[did].(numberOfEmployees := r.value.departments[did].numberOfEmployees)
      && r.value.departments[did].numberOfEmployees == s.departments[did].numberOfEmployees + 1
      && KeepsOthers(s.departments, r.value.departments, {did})
      && r.value.companies.Keys == s.companies.Keys
      && (cid in s.companies ==>
            && r.value.companies[cid] == s.companies[cid].(numberOfEmployees := r.value.companies[cid].numberOfEmployees)
            && r.value.companies[cid].numberOfEmployees == s.companies[cid].numberOfEmployees + 1)
      && KeepsOthers(s.companies, r.value.companies, {cid})
  {
    if body.department.None? || body.department.value !in s.departments then
      Err(NotFound(Departments))
    else
      var did := body.department.value;
      var dept := s.departments[did];
      if body.company != Some(dept.company) then
        Err(InvalidReference)
      else
        var e := NewEmployee(dept.company, did, body);
        if !ValidEmployee(e) then
          Err(ValidationError)
        else
          var companies :=
            if dept.company in s.companies then
              var c := s.companies[dept.company];
              s.companies[dept.company := c.(numberOfEmployees := c.numberOfEmployees + 1)]
            else
              s.companies;
          Ok(Store(
            companies,
            s.departments[did := dept.(numberOfEmployees := dept.numberOfEmployees + 1)],
            s.employees[s.nextId := e],
            s.nextId + 1))
  }

  /** The text fields of `e` after the partial update in `body`. Status and
      `hiredOn` are not touched; a valid record stays valid unless the update
      supplies a malformed email or mobile number, since every other field is
      either kept or replaced by a non-empty value. */
  function MergeFields(e: Employee, body: EmployeeBody): (r: Employee)
    ensures PartiallyUpdated(e, r, body)
    ensures r.employeeStatus == e.employeeStatus && r.hiredOn == e.hiredOn
    ensures ValidEmployee(e) ==>
      (ValidEmployee(r) <==>
        && (!Supplied(body.email) || ValidEmail(body.email.value))
        && (!Supplied(body.mobileNumber) || ValidMobile(body.mobileNumber.value)))
  {
    e.(employeeName := Pick(body.employeeName, e.employeeName),
       email := Pick(body.email, e.email),
       mobileNumber := Pick(body.mobileNumber, e.mobileNumber),
       address := Pick(body.address, e.address),
       designation := Pick(body.designation, e.designation))
  }

  /** `updated` carries the partial update of `body` over `before`: each supplied
      non-empty text field replaces the stored one, the rest are kept, and the
      references never change. */
  predicate PartiallyUpdated(before: Employee, updated: Employee, body: EmployeeBody) {
    && updated.company == before.company
    && updated.department == before.department
    && updated.employeeName == (if Supplied(body.employeeName) then body.employeeName.value else before.employeeName)
    && updated.email == (if Supplied(body.email) then body.email.value else before.email)
    && updated.mobileNumber == (if Supplied(body.mobileNumber) then body.mobileNumber.value else before.mobileNumber)
    && updated.address == (if Supplied(body.address) then body.address.value else before.address)
    && updated.designation == (if Supplied(body.designation) then body.designation.value else before.designation)
  }

  /** `updateEmployee`: the status step of the workflow, then the partial
      update of the text fields, then the schema validators on save. A
      refused status change or a failed validator stores nothing. */
  function UpdateEmployee(s: Store, id: Id, body: EmployeeBody, now: int): (r: Result<Store, Error>)
    ensures r == Err(NotFound(Employees)) <==> id !in s.employees
    ensures r.Err? && r.error.InvalidTransition? <==>
      id in s.employees && ApplyStatus(s.employees[id], body.employeeStatus, now).Err?
    ensures r == Err(ValidationError) <==>
      && id in s.employees && ApplyStatus(s.employees[id], body.employeeStatus, now).Ok?
      && !ValidEmployee(MergeFields(ApplyStatus(s.employees[id], body.employeeStatus, now).value, body))
    ensures r.Err? ==> r.error == NotFound(Employees) || r.error == ValidationError || r.error.InvalidTransition?
    ensures r.Ok? <==>
      && id in s.employees && ApplyStatus(s.employees[id], body.employeeStatus, now).Ok?
      && ValidEmployee(MergeFields(ApplyStatus(s.employees[id], body.employeeStatus, now).value, body))
    ensures r.Ok? ==> id in s.employees && r.value.employees.Keys == s.employees.Keys
    ensures r.Ok? ==>
      var before, e := s.employees[id], r.value.employees[id];
      && PartiallyUpdated(before, e, body)
      && ValidEmployee(e)
      && (!Supplied(body.employeeStatus) ==> e.employeeStatus == before.employeeStatus)
      && (Supplied(body.employeeStatus) ==> StatusName(e.employeeStatus) == body.employeeStatus.value)
      && (e.employeeStatus != before.employeeStatus ==> CanTransition(before.employeeStatus, e.employeeStatus))
      && (e.hiredOn != before.hiredOn ==> e.hiredOn == Some(now) && e.employeeStatus == Hired && before.employeeStatus != Hired)
      && (e.employeeStatus == Hired && before.employeeStatus != Hired ==> e.hiredOn == Some(now))
      && (Terminal(before.employeeStatus) ==> e.employeeStatus == before.employeeStatus && e.hiredOn == before.hiredOn)
      && KeepsOthers(s.employees, r.value.employees, {id})
      && r.value.companies == s.companies
      && r.value.departments == s.departments
      && r.value.nextId == s.nextId
  {
    if id !in s.employees then
      Err(NotFound(Employees))
    else
      var stepped :- ApplyStatus(s.employees[id], body.employeeStatus, now);
      var e := MergeFields(stepped, body);
      if !ValidEmployee(e) then
        Err(ValidationError)
      else
        Ok(s.(employees := s.employees[id := e]))
  }

  /** `deleteEmployee`: the employee goes, and the employee counters of its
      company and of its department, each only if still there, drop by one,
      never below 0. */
  function DeleteEmployee(s: Store, id: Id): (r: Result<Store, Error>)
    ensures r.Err? <==> id !in s.employees
    ensures r.Err? ==> r.error == NotFound(Employees)
    ensures r.Ok? ==>
      var cid, did := s.employees[id].company, s.employees[id].department;
      && r.value.employees.Keys == s.employees.Keys - {id}
      && KeepsOthers(s.employees, r.value.employees, {id})
      && r.value.companies.Keys == s.companies.Keys
      && (cid in s.companies ==>
            && r.value.companies[cid] == s.companies[cid].(numberOfEmployees := r.value.companies[cid].numberOfEmployees)
            && r.value.companies[cid].numberOfEmployees == DecrementFloor(s.companies[cid].numberOfEmployees))
      && KeepsOthers(s.companies, r.value.companies, {cid})
      && r.value.departments.Keys == s.departments.Keys
      && (did in s.departments ==>
            && r.value.departments[did] == s.departments[did].(numberOfEmployees := r.value.departments[did].numberOfEmployees)
            && r.value.departments[did].numberOfEmployees == DecrementFloor(s.departments[did].numberOfEmployees))
      && KeepsOthers(s.departments, r.value.departments, {did})
      && r.value.nextId == s.nextId
  {
    if id !in s.employees then
      Err(NotFound(Employees))
    else
      var e := s.employees[id];
      var companies :=
        if e.company in s.companies then
          var c := s.companies[e.company];
          s.companies[e.company := c.(numberOfEmployees := DecrementFloor(c.numberOfEmployees))]
        else
          s.companies;
      var departments :=
        if e.department in s.departments then
          var d := s.departments[e.department];
          s.departments[e.department := d.(numberOfEmployees := DecrementFloor(d.numberOfEmployees))]
        else
          s.departments;
      Ok(Store(companies, departments, s.employees - {id}, s.nextId))
  }
}
