/** The department controller: read one department, create one under an
    existing company, rename, and delete one that has no employees. Creating
    and deleting keep the owning company's department counter. */
module DepartmentController {
  import opened Results
  import opened Fields
  import opened Errors
  import opened CompanyModel
  import opened DepartmentModel
  import opened Store

  /** The request body of a department write. */
  datatype DepartmentBody = DepartmentBody(company: Option<Id>, departmentName: Option<string>)

  /** `getDepartment`: the stored record, or NotFound. */
  function GetDepartment(s: Store, id: Id): (r: Result<Department, Error>)
    ensures r.Ok? <==> id in s.departments
    ensures r.Ok? ==> r.value == s.departments[id]
    ensures r.Err? ==> r.error == NotFound(Departments)
  {
    if id in s.departments then Ok(s.departments[id]) else Err(NotFound(Departments))
  }

  /** `createDepartment`: the company must exist and the name is required;
      the new department starts with no employees and its company's
      department counter goes up by one. */
  function CreateDepartment(s: Store, body: DepartmentBody): (r: Result<Store, Error>)
    ensures r == Err(NotFound(Companies)) <==> body.company.None? || body.company.value !in s.companies
    ensures r == Err(ValidationError) <==>
      body.company.Some? && body.company.value in s.companies && !Supplied(body.departmentName)
    ensures r.Ok? <==> body.company.Some? && body.company.value in s.companies && Supplied(body.departmentName)
    ensures r.Ok? ==>
      var cid := body.company.value;
      && cid in s.companies
      && r.value.nextId > s.nextId
      && r.value.departments.Keys == s.departments.Keys + {s.nextId}
      && r.value.departments[s.nextId].company == cid
      && r.value.departments[s.nextId].departmentName == body.departmentName.value
      && r.value.departments[s.nextId].numberOfEmployees == 0
      && KeepsOthers(s.departments, r.value.departments, {s.nextId})
      && r.value.companies.Keys == s.companies.Keys
      && r.value.companies[cid] == s.companies[cid].(numberOfDepartments := r.value.companies[cid].numberOfDepartments)
      && r.value.companies[cid].numberOfDepartments == s.companies[cid].numberOfDepartments + 1
      && KeepsOthers(s.companies, r.value.companies, {cid})
      && r.value.employees == s.employees
  {
    if body.company.None? || body.company.value !in s.companies then
      Err(NotFound(Companies))
    else
      var cid := body.company.value;
      var d := NewDepartment(cid, Text(body.departmentName));
      if !ValidDepartment(d) then
        Err(ValidationError)
      else
        var c := s.companies[cid];
        Ok(Store(
          s.companies[cid := c.(numberOfDepartments := c.numberOfDepartments + 1)],
          s.departments[s.nextId := d],
          s.employees,
          s.nextId + 1))
  }

  /** `updateDepartment`: a supplied non-empty name replaces the stored one;
      the company reference and the employee counter never change. */
  function UpdateDepartment(s: Store, id: Id, body: DepartmentBody): (r: Result<Store, Error>)
    ensures r == Err(NotFound(Departments)) <==> id !in s.departments
    ensures r == Err(ValidationError) <==>
      id in s.departments && !Supplied(body.departmentName) && !ValidDepartment(s.departments[id])
    ensures r.Ok? <==> id in s.departments && (Supplied(body.departmentName) || ValidDepartment(s.departments[id]))
    ensures r.Ok? ==>
      && r.value.departments.Keys == s.departments.Keys
      && r.value.departments[id].departmentName ==
           (if Supplied(body.departmentName) then body.departmentName.value else s.departments[id].departmentName)
      && r.value.departments[id].company == s.departments[id].company
      && r.value.departments[id].numberOfEmployees == s.departments[id].numberOfEmployees
      && KeepsOthers(s.departments, r.value.departments, {id})
      && r.value.companies == s.companies
      && r.value.employees == s.employees
      && r.value.nextId == s.nextId
  {
    if id !in s.departments then
      Err(NotFound(Departments))
    else
      var d := s.departments[id];
      var renamed := d.(departmentName := Pick(body.departmentName, d.departmentName));
      if !ValidDepartment(renamed) then
        Err(ValidationError)
      else
        Ok(s.(departments := s.departments[id := renamed]))
  }

  /** `deleteDepartment`: refused while its employee counter is positive;
      otherwise the department goes, and its company's department counter (if
      the company is still there) drops by one, never below 0. */
  function DeleteDepartment(s: Store, id: Id): (r: Result<Store, Error>)
    ensures r == Err(NotFound(Departments)) <==> id !in s.departments
    ensures r == Err(PreconditionFailed) <==> id in s.departments && s.departments[id].numberOfEmployees > 0
    ensures r.Ok? <==> id in s.departments && s.departments[id].numberOfEmployees <= 0
    ensures r.Ok? ==>
      var cid := s.departments[id].company;
      && r.value.departments.Keys == s.departments.Keys - {id}
      && KeepsOthers(s.departments, r.value.departments, {id})
      && r.value.companies.Keys == s.companies.Keys
      && (cid in s.companies ==>
            && r.value.companies[cid] == s.companies[cid].(numberOfDepartments := r.value.companies[cid].numberOfDepartments)
            && r.value.companies[cid].numberOfDepartments == DecrementFloor(s.companies[cid].numberOfDepartments))
      && KeepsOthers(s.companies, r.value.companies, {cid})
      && r.value.employees == s.employees
      && r.value.nextId == s.nextId
  {
    if id !in s.departments then
      Err(NotFound(Departments))
    else if s.departments[id].numberOfEmployees > 0 then
      Err(PreconditionFailed)
    else
      var cid := s.departments[id].company;
      var companies :=
        if cid in s.companies then
          var c := s.companies[cid];
          s.companies[cid := c.(numberOfDepartments := DecrementFloor(c.numberOfDepartments))]
        else
          s.companies;
      Ok(s.(companies := companies, departments := s.departments - {id}))
  }
}
