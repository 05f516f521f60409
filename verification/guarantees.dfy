/** What the invariant buys the callers of the controllers: the counter
    checks guarding the deletes are exactly "has live children", a new
    employee always counts in its company, renames never trip a validator,
    and creating then deleting a record restores the store. */
module Guarantees {
  import opened Results
  import opened Fields
  import opened Counting
  import opened Validation
  import opened Errors
  import opened CompanyModel
  import opened DepartmentModel
  import opened EmployeeModel
  import opened Workflow
  import opened Store
  import opened CompanyController
  import opened DepartmentController
  import opened EmployeeController

  /** With exact counters, `deleteDepartment` is refused exactly when some
      live employee is in the department. */
  lemma DeleteDepartmentRefusedIffStaffed(s: Store, id: Id)
    requires DepartmentCountersExact(s) && id in s.departments
    ensures DeleteDepartment(s, id) == Err(PreconditionFailed) <==>
      exists e :: e in s.employees && s.employees[e].department == id
  {
    var byDepartment := EmployeeDepartments(s.employees);
    CountZero(byDepartment, id);
    if exists e :: e in s.employees && s.employees[e].department == id {
      var e :| e in s.employees && s.employees[e].department == id;
      assert byDepartment[e] == id;
    }
  }

  /** With exact counters, `deleteCompany` is refused exactly when some live
      department or employee references the company. */
  lemma DeleteCompanyRefusedIffChildren(s: Store, id: Id)
    requires CompanyCountersExact(s) && id in s.companies
    ensures DeleteCompany(s, id) == Err(PreconditionFailed) <==>
      || (exists d :: d in s.departments && s.departments[d].company == id)
      || (exists e :: e in s.employees && s.employees[e].company == id)
  {
    var byDepartment, byEmployee := DepartmentCompanies(s.departments), EmployeeCompanies(s.employees);
    CountZero(byDepartment, id);
    CountZero(byEmployee, id);
    if exists d :: d in s.departments && s.departments[d].company == id {
      var d :| d in s.departments && s.departments[d].company == id;
      assert byDepartment[d] == id;
    }
    if exists e :: e in s.employees && s.employees[e].company == id {
      var e :| e in s.employees && s.employees[e].company == id;
      assert byEmployee[e] == id;
    }
  }

  /** When every department's company exists, `createEmployee` never takes
      the missing-company branch: both counters rise by one. */
  lemma CreateEmployeeCountsBoth(s: Store, body: EmployeeBody)
    requires ReferencesResolve(s) && CreateEmployee(s, body).Ok?
    ensures body.company.Some? && body.company.value in s.companies
    ensures CreateEmployee(s, body).value.companies[body.company.value].numberOfEmployees
         == s.companies[body.company.value].numberOfEmployees + 1
  {
  }

  /** For a stored employee that passes its validators, an update whose status
      step succeeds is refused by validation exactly when it supplies a
      malformed email or mobile number: every other field is kept or
      replaced by a non-empty value. */
  lemma UpdateEmployeeValidationIff(s: Store, id: Id, body: EmployeeBody, now: int)
    requires id in s.employees && ValidEmployee(s.employees[id])
    requires ApplyStatus(s.employees[id], body.employeeStatus, now).Ok?
    ensures UpdateEmployee(s, id, body, now) == Err(ValidationError) <==>
      || (Supplied(body.email) && !ValidEmail(body.email.value))
      || (Supplied(body.mobileNumber) && !ValidMobile(body.mobileNumber.value))
  {
    var stepped := ApplyStatus(s.employees[id], body.employeeStatus, now).value;
    var merged := MergeFields(stepped, body);
    assert ValidEmployee(merged) <==>
      && (!Supplied(body.email) || ValidEmail(body.email.value))
      && (!Supplied(body.mobileNumber) || ValidMobile(body.mobileNumber.value));
  }

  /** Renames of stored, valid records are never refused by a validator; a
      company rename can only be refused by the unique index. */
  lemma RenamesPassValidation(s: Store, id: Id, companyName: Option<string>, body: DepartmentBody)
    requires RecordsValid(s)
    ensures UpdateCompany(s, id, companyName) != Err(ValidationError)
    ensures UpdateDepartment(s, id, body) != Err(ValidationError)
  {
  }

  /** Creating a company and deleting it again restores the store, apart from
      the id counter. */
  lemma CreateThenDeleteCompany(s: Store, companyName: Option<string>)
    requires s.nextId !in s.companies
    requires CreateCompany(s, companyName).Ok?
    ensures DeleteCompany(CreateCompany(s, companyName).value, s.nextId) == Ok(s.(nextId := s.nextId + 1))
  {
    var t := CreateCompany(s, companyName).value;
    assert t.companies - {s.nextId} == s.companies;
  }

  /** Creating a department and deleting it again restores every company
      counter and the whole store, apart from the id counter. */
  lemma CreateThenDeleteDepartment(s: Store, body: DepartmentBody)
    requires s.nextId !in s.departments && CountersNonNegative(s)
    requires CreateDepartment(s, body).Ok?
    ensures DeleteDepartment(CreateDepartment(s, body).value, s.nextId) == Ok(s.(nextId := s.nextId + 1))
  {
    var t := CreateDepartment(s, body).value;
    var cid := body.company.value;
    var c := s.companies[cid];
    assert t.companies == s.companies[cid := c.(numberOfDepartments := c.numberOfDepartments + 1)];
    assert t.departments - {s.nextId} == s.departments;
    assert t.departments[s.nextId].numberOfEmployees == 0;
    var u := DeleteDepartment(t, s.nextId).value;
    assert u.companies == s.companies[cid := c] == s.companies;
    assert u.departments == s.departments;
    assert u == s.(nextId := s.nextId + 1);
  }

  /** Creating an employee and deleting it again restores both employee
      counters and the whole store, apart from the id counter. */
  lemma CreateThenDeleteEmployee(s: Store, body: EmployeeBody)
    requires s.nextId !in s.employees && CountersNonNegative(s)
    requires CreateEmployee(s, body).Ok?
    ensures DeleteEmployee(CreateEmployee(s, body).value, s.nextId) == Ok(s.(nextId := s.nextId + 1))
  {
    var t := CreateEmployee(s, body).value;
    var did := body.department.value;
    var cid := s.departments[did].company;
    var d := s.departments[did];
    assert t.departments == s.departments[did := d.(numberOfEmployees := d.numberOfEmployees + 1)];
    assert t.employees - {s.nextId} == s.employees;
    var u := DeleteEmployee(t, s.nextId).value;
    assert u.departments == s.departments[did := d] == s.departments;
    if cid in s.companies {
      var c := s.companies[cid];
      assert t.companies == s.companies[cid := c.(numberOfEmployees := c.numberOfEmployees + 1)];
      assert u.companies == s.companies[cid := c];
      assert s.companies[cid := c] == s.companies;
    } else {
      assert u.companies == s.companies;
    }
    assert u.employees == s.employees;
    assert u == s.(nextId := s.nextId + 1);
  }
}
