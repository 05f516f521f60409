/** The consistency guarantees of the controllers: every successful operation
    keeps the store consistent (counters equal to live children, references
    resolving, records valid). Each preservation proof is split by the parts
    of `Consistent`: ids and records, references, counters. */
module Consistency {
  import opened Results
  import opened Fields
  import opened Counting
  import opened Validation
  import opened Errors
  import opened CompanyModel
  import opened DepartmentModel
  import opened EmployeeModel
  import opened Workflow
  import opened Store
  import opened CompanyController
  import opened DepartmentController
  import opened EmployeeController

  // ----- createCompany -----

  lemma CreateCompanyKeepsRecords(s: Store, companyName: Option<string>)
    requires IdsIssued(s) && RecordsValid(s) && CreateCompany(s, companyName).Ok?
    ensures IdsIssued(CreateCompany(s, companyName).value)
    ensures RecordsValid(CreateCompany(s, companyName).value)
  {
    AddFreshNameKeepsUnique(s.companies, s.nextId, NewCompany(companyName.value));
  }

  lemma CreateCompanyKeepsReferences(s: Store, companyName: Option<string>)
    requires ReferencesResolve(s) && CreateCompany(s, companyName).Ok?
    ensures ReferencesResolve(CreateCompany(s, companyName).value)
  {
    var t := CreateCompany(s, companyName).value;
    assert t.departments == s.departments && t.employees == s.employees;
    assert s.companies.Keys <= t.companies.Keys;
  }

  lemma CreateCompanyKeepsCounters(s: Store, companyName: Option<string>)
    requires IdsIssued(s) && ReferencesResolve(s) && CountersExact(s) && CreateCompany(s, companyName).Ok?
    ensures CountersExact(CreateCompany(s, companyName).value)
  {
    var t := CreateCompany(s, companyName).value;
    var id := s.nextId;
    forall c | c in t.companies
      ensures t.companies[c].numberOfDepartments == Count(DepartmentCompanies(t.departments), c)
      ensures t.companies[c].numberOfEmployees == Count(EmployeeCompanies(t.employees), c)
    {
      if c == id {
        CountZero(DepartmentCompanies(s.departments), id);
        CountZero(EmployeeCompanies(s.employees), id);
      }
    }
  }

  /** A successful `createCompany` keeps the store consistent. */
  lemma CreateCompanyPreserves(s: Store, companyName: Option<string>)
    requires Consistent(s) && CreateCompany(s, companyName).Ok?
    ensures Consistent(CreateCompany(s, companyName).value)
  {
    CreateCompanyKeepsRecords(s, companyName);
    CreateCompanyKeepsReferences(s, companyName);
    CreateCompanyKeepsCounters(s, companyName);
  }

  // ----- updateCompany -----

  lemma UpdateCompanyKeepsRecords(s: Store, id: Id, companyName: Option<string>)
    requires IdsIssued(s) && RecordsValid(s) && UpdateCompany(s, id, companyName).Ok?
    ensures IdsIssued(UpdateCompany(s, id, companyName).value)
    ensures RecordsValid(UpdateCompany(s, id, companyName).value)
  {
    var t := UpdateCompany(s, id, companyName).value;
    var c := t.companies[id];
    assert t.companies == s.companies[id := c];
    if c.companyName == s.companies[id].companyName {
      forall a, b | a in t.companies && b in t.companies && a != b
        ensures t.companies[a].companyName != t.companies[b].companyName
      {
        assert t.companies[a].companyName == s.companies[a].companyName;
        assert t.companies[b].companyName == s.companies[b].companyName;
      }
    } else {
      AddFreshNameKeepsUnique(s.companies, id, c);
    }
  }

  lemma UpdateCompanyKeepsReferences(s: Store, id: Id, companyName: Option<string>)
    requires ReferencesResolve(s) && UpdateCompany(s, id, companyName).Ok?
    ensures ReferencesResolve(UpdateCompany(s, id, companyName).value)
  {
    var t := UpdateCompany(s, id, companyName).value;
    assert t.departments == s.departments && t.employees == s.employees;
    assert t.companies.Keys == s.companies.Keys;
  }

  lemma UpdateCompanyKeepsCounters(s: Store, id: Id, companyName: Option<string>)
    requires CountersExact(s) && UpdateCompany(s, id, companyName).Ok?
    ensures CountersExact(UpdateCompany(s, id, companyName).value)
  {
    var t := UpdateCompany(s, id, companyName).value;
    assert t.departments == s.departments && t.employees == s.employees;
    forall c | c in t.companies
      ensures t.companies[c].numberOfDepartments == s.companies[c].numberOfDepartments
      ensures t.companies[c].numberOfEmployees == s.companies[c].numberOfEmployees
    {
    }
  }

  /** A successful `updateCompany` keeps the store consistent; in particular
      company names stay unique. */
  lemma UpdateCompanyPreserves(s: Store, id: Id, companyName: Option<string>)
    requires Consistent(s) && UpdateCompany(s, id, companyName).Ok?
    ensures Consistent(UpdateCompany(s, id, companyName).value)
  {
    UpdateCompanyKeepsRecords(s, id, companyName);
    UpdateCompanyKeepsReferences(s, id, companyName);
    UpdateCompanyKeepsCounters(s, id, companyName);
  }

  // ----- deleteCompany -----

  lemma DeleteCompanyKeepsRecords(s: Store, id: Id)
    requires IdsIssued(s) && RecordsValid(s) && DeleteCompany(s, id).Ok?
    ensures IdsIssued(DeleteCompany(s, id).value)
    ensures RecordsValid(DeleteCompany(s, id).value)
  {
    var t := DeleteCompany(s, id).value;
    assert t.companies == s.companies - {id};
  }

  lemma DeleteCompanyKeepsReferences(s: Store, id: Id)
    requires ReferencesResolve(s) && CountersExact(s) && DeleteCompany(s, id).Ok?
    ensures ReferencesResolve(DeleteCompany(s, id).value)
  {
    var t := DeleteCompany(s, id).value;
    assert t.departments == s.departments && t.employees == s.employees;
    assert t.companies.Keys == s.companies.Keys - {id};
    CountZero(DepartmentCompanies(s.departments), id);
    forall d | d in t.departments
      ensures t.departments[d].company in t.companies
    {
      assert DepartmentCompanies(s.departments)[d] == s.departments[d].company;
    }
  }

  lemma DeleteCompanyKeepsCounters(s: Store, id: Id)
    requires CountersExact(s) && DeleteCompany(s, id).Ok?
    ensures CountersExact(DeleteCompany(s, id).value)
  {
    var t := DeleteCompany(s, id).value;
    assert t.departments == s.departments && t.employees == s.employees;
    assert t.companies == s.companies - {id};
  }

  /** A successful `deleteCompany` keeps the store consistent: the company it
      removes has no department and no employee left pointing at it. */
  lemma DeleteCompanyPreserves(s: Store, id: Id)
    requires Consistent(s) && DeleteCompany(s, id).Ok?
    ensures Consistent(DeleteCompany(s, id).value)
  {
    DeleteCompanyKeepsRecords(s, id);
    DeleteCompanyKeepsReferences(s, id);
    DeleteCompanyKeepsCounters(s, id);
  }

  // ----- createDepartment -----

  lemma CreateDepartmentKeepsRecords(s: Store, body: DepartmentBody)
    requires IdsIssued(s) && RecordsValid(s) && CreateDepartment(s, body).Ok?
    ensures IdsIssued(CreateDepartment(s, body).value)
    ensures RecordsValid(CreateDepartment(s, body).value)
  {
    var t := CreateDepartment(s, body).value;
    var cid := body.company.value;
    assert t.employees == s.employees;
    assert t.companies == s.companies[cid := t.companies[cid]];
    forall k | k in s.companies
      ensures t.companies[k].companyName == s.companies[k].companyName
    {
    }
    RecountKeepsNames(s.companies, t.companies);
  }

  lemma CreateDepartmentKeepsReferences(s: Store, body: DepartmentBody)
    requires IdsIssued(s) && ReferencesResolve(s) && CreateDepartment(s, body).Ok?
    ensures ReferencesResolve(CreateDepartment(s, body).value)
  {
    var t := CreateDepartment(s, body).value;
    assert t.employees == s.employees;
    assert t.companies.Keys == s.companies.Keys;
    forall d | d in s.departments
      ensures d in t.departments && t.departments[d].company == s.departments[d].company
    {
    }
  }

  lemma CreateDepartmentKeepsCounters(s: Store, body: DepartmentBody)
    requires IdsIssued(s) && ReferencesResolve(s) && CountersExact(s) && CreateDepartment(s, body).Ok?
    ensures CountersExact(CreateDepartment(s, body).value)
  {
    var t := CreateDepartment(s, body).value;
    var id, cid := s.nextId, body.company.value;
    var d := t.departments[id];
    assert t.employees == s.employees;
    assert t.departments == s.departments[id := d];
    DepartmentCompaniesUpdate(s.departments, id, d);
    assert id !in DepartmentCompanies(s.departments);
    forall c | c in t.companies
      ensures t.companies[c].numberOfDepartments == Count(DepartmentCompanies(t.departments), c)
      ensures t.companies[c].numberOfEmployees == s.companies[c].numberOfEmployees
    {
      CountInsert(DepartmentCompanies(s.departments), id, cid, c);
    }
    forall k | k in t.departments
      ensures t.departments[k].numberOfEmployees == Count(EmployeeDepartments(t.employees), k)
    {
      if k == id {
        CountZero(EmployeeDepartments(s.employees), id);
      }
    }
  }

  /** A successful `createDepartment` keeps the store consistent: its
      company's department counter counts the new department. */
  lemma CreateDepartmentPreserves(s: Store, body: DepartmentBody)
    requires Consistent(s) && CreateDepartment(s, body).Ok?
    ensures Consistent(CreateDepartment(s, body).value)
  {
    CreateDepartmentKeepsRecords(s, body);
    CreateDepartmentKeepsReferences(s, body);
    CreateDepartmentKeepsCounters(s, body);
  }

  // ----- updateDepartment -----

  lemma UpdateDepartmentKeepsRecords(s: Store, id: Id, body: DepartmentBody)
    requires IdsIssued(s) && RecordsValid(s) && UpdateDepartment(s, id, body).Ok?
    ensures IdsIssued(UpdateDepartment(s, id, body).value)
    ensures RecordsValid(UpdateDepartment(s, id, body).value)
  {
    var t := UpdateDepartment(s, id, body).value;
    assert t.companies == s.companies && t.employees == s.employees;
    forall k | k in t.departments
      ensures ValidDepartment(t.departments[k])
    {
      if k != id {
        assert t.departments[k] == s.departments[k];
      }
    }
  }

  lemma UpdateDepartmentKeepsReferences(s: Store, id: Id, body: DepartmentBody)
    requires ReferencesResolve(s) && UpdateDepartment(s, id, body).Ok?
    ensures ReferencesResolve(UpdateDepartment(s, id, body).value)
  {
    var t := UpdateDepartment(s, id, body).value;
    assert t.companies == s.companies && t.employees == s.employees;
    assert t.departments.Keys == s.departments.Keys;
    forall d | d in t.departments
      ensures t.departments[d].company == s.departments[d].company
    {
    }
  }

  lemma UpdateDepartmentKeepsCounters(s: Store, id: Id, body: DepartmentBody)
    requires CountersExact(s) && UpdateDepartment(s, id, body).Ok?
    ensures CountersExact(UpdateDepartment(s, id, body).value)
  {
    var t := UpdateDepartment(s, id, body).value;
    var d := t.departments[id];
    assert t.departments == s.departments[id := d];
    DepartmentCompaniesUpdate(s.departments, id, d);
    SameParent(DepartmentCompanies(s.departments), id, d.company);
  }

  /** A successful `updateDepartment` keeps the store consistent. */
  lemma UpdateDepartmentPreserves(s: Store, id: Id, body: DepartmentBody)
    requires Consistent(s) && UpdateDepartment(s, id, body).Ok?
    ensures Consistent(UpdateDepartment(s, id, body).value)
  {
    UpdateDepartmentKeepsRecords(s, id, body);
    UpdateDepartmentKeepsReferences(s, id, body);
    UpdateDepartmentKeepsCounters(s, id, body);
  }

  // ----- deleteDepartment -----

  lemma DeleteDepartmentKeepsRecords(s: Store, id: Id)
    requires IdsIssued(s) && RecordsValid(s) && DeleteDepartment(s, id).Ok?
    ensures IdsIssued(DeleteDepartment(s, id).value)
    ensures RecordsValid(DeleteDepartment(s, id).value)
  {
    var t := DeleteDepartment(s, id).value;
    assert t.employees == s.employees;
    assert t.companies.Keys == s.companies.Keys;
    forall k | k in s.companies
      ensures t.companies[k].companyName == s.companies[k].companyName
    {
    }
    RecountKeepsNames(s.companies, t.companies);
  }

  lemma DeleteDepartmentKeepsReferences(s: Store, id: Id)
    requires ReferencesResolve(s) && CountersExact(s) && DeleteDepartment(s, id).Ok?
    ensures ReferencesResolve(DeleteDepartment(s, id).value)
  {
    var t := DeleteDepartment(s, id).value;
    assert t.employees == s.employees;
    assert t.companies.Keys == s.companies.Keys;
    CountZero(EmployeeDepartments(s.employees), id);
    forall e | e in t.employees
      ensures t.employees[e].department in t.departments
    {
      assert EmployeeDepartments(s.employees)[e] == s.employees[e].department;
    }
  }

  lemma DeleteDepartmentKeepsCounters(s: Store, id: Id)
    requires IdsIssued(s) && ReferencesResolve(s) && CountersExact(s) && DeleteDepartment(s, id).Ok?
    ensures CountersExact(DeleteDepartment(s, id).value)
  {
    var t := DeleteDepartment(s, id).value;
    var cid := s.departments[id].company;
    var parents := DepartmentCompanies(s.departments);
    assert t.employees == s.employees;
    DepartmentCompaniesRemove(s.departments, id);
    CountRemove(parents, id, cid);
    forall c | c in t.companies
      ensures t.companies[c].numberOfDepartments == Count(DepartmentCompanies(t.departments), c)
      ensures t.companies[c].numberOfEmployees == s.companies[c].numberOfEmployees
    {
      CountRemove(parents, id, c);
    }
  }

  /** A successful `deleteDepartment` keeps the store consistent: no
      employee is left in the removed department, and its company's
      department counter drops by exactly one. */
  lemma DeleteDepartmentPreserves(s: Store, id: Id)
    requires Consistent(s) && DeleteDepartment(s, id).Ok?
    ensures Consistent(DeleteDepartment(s, id).value)
  {
    DeleteDepartmentKeepsRecords(s, id);
    DeleteDepartmentKeepsReferences(s, id);
    DeleteDepartmentKeepsCounters(s, id);
  }

  // ----- createEmployee -----

  lemma CreateEmployeeKeepsIds(s: Store, body: EmployeeBody)
    requires IdsIssued(s) && CreateEmployee(s, body).Ok?
    ensures IdsIssued(CreateEmployee(s, body).value)
  {
  }

  lemma CreateEmployeeKeepsRecords(s: Store, body: EmployeeBody)
    requires RecordsValid(s) && CreateEmployee(s, body).Ok?
    ensures RecordsValid(CreateEmployee(s, body).value)
  {
    var t := CreateEmployee(s, body).value;
    forall k | k in s.companies
      ensures t.companies[k].companyName == s.companies[k].companyName
    {
    }
    RecountKeepsNames(s.companies, t.companies);
    forall k | k in t.departments
      ensures ValidDepartment(t.departments[k])
    {
      assert t.departments[k].departmentName == s.departments[k].departmentName;
    }
    forall k | k in t.employees
      ensures ValidEmployee(t.employees[k]) && HiringStamped(t.employees[k])
    {
      if k != s.nextId {
        assert t.employees[k] == s.employees[k];
      }
    }
  }

  lemma CreateEmployeeKeepsReferences(s: Store, body: EmployeeBody)
    requires ReferencesResolve(s) && CreateEmployee(s, body).Ok?
    ensures ReferencesResolve(CreateEmployee(s, body).value)
  {
    var t := CreateEmployee(s, body).value;
    assert t.companies.Keys == s.companies.Keys;
    forall d | d in s.departments
      ensures d in t.departments && t.departments[d].company == s.departments[d].company
    {
    }
  }

  lemma CreateEmployeeKeepsCompanyCounters(s: Store, body: EmployeeBody)
    requires IdsIssued(s) && ReferencesResolve(s) && CompanyCountersExact(s) && CreateEmployee(s, body).Ok?
    ensures CompanyCountersExact(CreateEmployee(s, body).value)
  {
    var t := CreateEmployee(s, body).value;
    var id, did := s.nextId, body.department.value;
    var cid := s.departments[did].company;
    assert cid in s.companies && body.company == Some(cid);
    var e := t.employees[id];
    assert t.employees == s.employees[id := e];
    EmployeeProjectionsUpdate(s.employees, id, e);
    assert id !in EmployeeCompanies(s.employees);
    var byCompany := EmployeeCompanies(s.employees);
    assert EmployeeCompanies(t.employees) == byCompany[id := cid];
    assert t.departments == s.departments[did := t.departments[did]];
    DepartmentCompaniesUpdate(s.departments, did, t.departments[did]);
    SameParent(DepartmentCompanies(s.departments), did, cid);
    assert DepartmentCompanies(t.departments) == DepartmentCompanies(s.departments);
    forall c | c in t.companies
      ensures t.companies[c].numberOfEmployees == Count(EmployeeCompanies(t.employees), c)
      ensures t.companies[c].numberOfDepartments == Count(DepartmentCompanies(t.departments), c)
    {
      CountInsert(byCompany, id, cid, c);
      if c != cid {
        assert t.companies[c] == s.companies[c];
      }
    }
  }

  lemma CreateEmployeeKeepsDepartmentCounters(s: Store, body: EmployeeBody)
    requires IdsIssued(s) && DepartmentCountersExact(s) && CreateEmployee(s, body).Ok?
    ensures DepartmentCountersExact(CreateEmployee(s, body).value)
  {
    var t := CreateEmployee(s, body).value;
    var id, did := s.nextId, body.department.value;
    var e := t.employees[id];
    assert t.employees == s.employees[id := e];
    EmployeeProjectionsUpdate(s.employees, id, e);
    assert id !in EmployeeDepartments(s.employees);
    forall k | k in t.departments
      ensures t.departments[k].numberOfEmployees == Count(EmployeeDepartments(t.employees), k)
    {
      CountInsert(EmployeeDepartments(s.employees), id, did, k);
    }
  }

  /** A successful `createEmployee` keeps the store consistent: both parents'
      employee counters count the new employee. */
  lemma CreateEmployeePreserves(s: Store, body: EmployeeBody)
    requires Consistent(s) && CreateEmployee(s, body).Ok?
    ensures Consistent(CreateEmployee(s, body).value)
  {
    CreateEmployeeKeepsIds(s, body);
    CreateEmployeeKeepsRecords(s, body);
    CreateEmployeeKeepsReferences(s, body);
    CreateEmployeeKeepsCompanyCounters(s, body);
    CreateEmployeeKeepsDepartmentCounters(s, body);
  }

  // ----- updateEmployee -----

  /** The updated record passes the validators and keeps the `hiredOn`
      stamp in step with its status. */
  lemma UpdatedEmployeeValid(s: Store, id: Id, body: EmployeeBody, now: int)
    requires id in s.employees && HiringStamped(s.employees[id])
    requires UpdateEmployee(s, id, body, now).Ok?
    ensures ValidEmployee(UpdateEmployee(s, id, body, now).value.employees[id])
    ensures HiringStamped(UpdateEmployee(s, id, body, now).value.employees[id])
  {
    var before := s.employees[id];
    var stepped := ApplyStatus(before, body.employeeStatus, now).value;
    assert UpdateEmployee(s, id, body, now).value.employees[id] == MergeFields(stepped, body);
    ApplyStatusKeepsStamp(before, body.employeeStatus, now);
  }

  /** Replacing one record by a valid, stamped one keeps every record valid
      and stamped. */
  lemma ReplaceKeepsEmployeesValid(m: map<Id, Employee>, id: Id, e: Employee)
    requires EmployeesValid(m) && ValidEmployee(e) && HiringStamped(e)
    ensures EmployeesValid(m[id := e])
  {
  }

  lemma UpdateEmployeeKeepsIds(s: Store, id: Id, body: EmployeeBody, now: int)
    requires IdsIssued(s) && UpdateEmployee(s, id, body, now).Ok?
    ensures IdsIssued(UpdateEmployee(s, id, body, now).value)
  {
  }

  lemma UpdateEmployeeKeepsRecords(s: Store, id: Id, body: EmployeeBody, now: int)
    requires RecordsValid(s) && UpdateEmployee(s, id, body, now).Ok?
    ensures RecordsValid(UpdateEmployee(s, id, body, now).value)
  {
    var t := UpdateEmployee(s, id, body, now).value;
    UpdatedEmployeeValid(s, id, body, now);
    assert t.companies == s.companies && t.departments == s.departments;
    assert t.employees == s.employees[id := t.employees[id]];
    ReplaceKeepsEmployeesValid(s.employees, id, t.employees[id]);
  }

  lemma UpdateEmployeeKeepsReferences(s: Store, id: Id, body: EmployeeBody, now: int)
    requires ReferencesResolve(s) && UpdateEmployee(s, id, body, now).Ok?
    ensures ReferencesResolve(UpdateEmployee(s, id, body, now).value)
  {
    var t := UpdateEmployee(s, id, body, now).value;
    assert t.companies == s.companies && t.departments == s.departments;
    forall e | e in t.employees
      ensures t.employees[e].company == s.employees[e].company
      ensures t.employees[e].department == s.employees[e].department
    {
      if e != id {
        assert t.employees[e] == s.employees[e];
      }
    }
  }

  lemma UpdateEmployeeKeepsCounters(s: Store, id: Id, body: EmployeeBody, now: int)
    requires CountersExact(s) && UpdateEmployee(s, id, body, now).Ok?
    ensures CountersExact(UpdateEmployee(s, id, body, now).value)
  {
    var t := UpdateEmployee(s, id, body, now).value;
    var e := t.employees[id];
    assert t.employees == s.employees[id := e];
    EmployeeProjectionsUpdate(s.employees, id, e);
    SameParent(EmployeeCompanies(s.employees), id, e.company);
    SameParent(EmployeeDepartments(s.employees), id, e.department);
  }

  /** A successful `updateEmployee` keeps the store consistent: records stay
      valid and `hiredOn` stays set exactly on Hired employees. */
  lemma UpdateEmployeePreserves(s: Store, id: Id, body: EmployeeBody, now: int)
    requires Consistent(s) && UpdateEmployee(s, id, body, now).Ok?
    ensures Consistent(UpdateEmployee(s, id, body, now).value)
  {
    UpdateEmployeeKeepsIds(s, id, body, now);
    UpdateEmployeeKeepsRecords(s, id, body, now);
    UpdateEmployeeKeepsReferences(s, id, body, now);
    UpdateEmployeeKeepsCounters(s, id, body, now);
  }

  // ----- deleteEmployee -----

  lemma DeleteEmployeeKeepsRecords(s: Store, id: Id)
    requires IdsIssued(s) && RecordsValid(s) && DeleteEmployee(s, id).Ok?
    ensures IdsIssued(DeleteEmployee(s, id).value)
    ensures RecordsValid(DeleteEmployee(s, id).value)
  {
    var t := DeleteEmployee(s, id).value;
    assert t.companies.Keys == s.companies.Keys;
    forall k | k in s.companies
      ensures t.companies[k].companyName == s.companies[k].companyName
    {
    }
    RecountKeepsNames(s.companies, t.companies);
  }

  lemma DeleteEmployeeKeepsReferences(s: Store, id: Id)
    requires ReferencesResolve(s) && DeleteEmployee(s, id).Ok?
    ensures ReferencesResolve(DeleteEmployee(s, id).value)
  {
    var t := DeleteEmployee(s, id).value;
    assert t.companies.Keys == s.companies.Keys;
    forall d | d in s.departments
      ensures d in t.departments && t.departments[d].company == s.departments[d].company
    {
    }
  }

  lemma DeleteEmployeeKeepsCounters(s: Store, id: Id)
    requires IdsIssued(s) && ReferencesResolve(s) && CountersExact(s) && DeleteEmployee(s, id).Ok?
    ensures CountersExact(DeleteEmployee(s, id).value)
  {
    var t := DeleteEmployee(s, id).value;
    var cid, did := s.employees[id].company, s.employees[id].department;
    var byCompany, byDepartment := EmployeeCompanies(s.employees), EmployeeDepartments(s.employees);
    EmployeeProjectionsRemove(s.employees, id);
    CountRemove(byCompany, id, cid);
    CountRemove(byDepartment, id, did);
    assert t.departments == s.departments[did := t.departments[did]];
    DepartmentCompaniesUpdate(s.departments, did, t.departments[did]);
    SameParent(DepartmentCompanies(s.departments), did, s.departments[did].company);
    forall c | c in t.companies
      ensures t.companies[c].numberOfEmployees == Count(EmployeeCompanies(t.employees), c)
      ensures t.companies[c].numberOfDepartments == s.companies[c].numberOfDepartments
    {
      CountRemove(byCompany, id, c);
    }
    forall k | k in t.departments
      ensures t.departments[k].numberOfEmployees == Count(EmployeeDepartments(t.employees), k)
    {
      CountRemove(byDepartment, id, k);
    }
  }

  /** A successful `deleteEmployee` keeps the store consistent: both parents
      exist and count the employee, so the floored decrements are exact. */
  lemma DeleteEmployeePreserves(s: Store, id: Id)
    requires Consistent(s) && DeleteEmployee(s, id).Ok?
    ensures Consistent(DeleteEmployee(s, id).value)
  {
    DeleteEmployeeKeepsRecords(s, id);
    DeleteEmployeeKeepsReferences(s, id);
    DeleteEmployeeKeepsCounters(s, id);
  }
}
