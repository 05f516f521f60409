/** The company controller: read one company, create, rename, and delete a
    company that has no departments and no employees. */
module CompanyController {
  import opened Results
  import opened Fields
  import opened Errors
  import opened CompanyModel
  import opened Store

  /** `getCompany`: the stored record, or NotFound. */
  function GetCompany(s: Store, id: Id): (r: Result<Company, Error>)
    ensures r.Ok? <==> id in s.companies
    ensures r.Ok? ==> r.value == s.companies[id]
    ensures r.Err? ==> r.error == NotFound(Companies)
  {
    if id in s.companies then Ok(s.companies[id]) else Err(NotFound(Companies))
  }

  /** `createCompany`: the name is required and must be unused; the new
      company gets the next id and both counters at 0. */
  function CreateCompany(s: Store, companyName: Option<string>): (r: Result<Store, Error>)
    ensures r == Err(ValidationError) <==> !Supplied(companyName)
    ensures r == Err(DuplicateKey) <==> Supplied(companyName) && NameInUse(s.companies, companyName.value)
    ensures r.Ok? <==> Supplied(companyName) && !NameInUse(s.companies, companyName.value)
    ensures r.Ok? ==>
      && r.value.nextId > s.nextId
      && r.value.companies.Keys == s.companies.Keys + {s.nextId}
      && r.value.companies[s.nextId].companyName == companyName.value
      && r.value.companies[s.nextId].numberOfDepartments == 0
      && r.value.companies[s.nextId].numberOfEmployees == 0
      && KeepsOthers(s.companies, r.value.companies, {s.nextId})
      && r.value.departments == s.departments
      && r.value.employees == s.employees
  {
    if !Supplied(companyName) then
      Err(ValidationError)
    else if NameInUse(s.companies, companyName.value) then
      Err(DuplicateKey)
    else
      Ok(s.(companies := s.companies[s.nextId := NewCompany(companyName.value)], nextId := s.nextId + 1))
  }

  /** `updateCompany`: a supplied non-empty name replaces the stored one,
      subject to the unique index when it actually changes; the counters are
      never touched. */
  function UpdateCompany(s: Store, id: Id, companyName: Option<string>): (r: Result<Store, Error>)
    ensures r == Err(NotFound(Companies)) <==> id !in s.companies
    ensures r == Err(ValidationError) <==>
      id in s.companies && !Supplied(companyName) && !ValidCompany(s.companies[id])
    ensures r == Err(DuplicateKey) <==>
      && id in s.companies
      && Supplied(companyName)
      && companyName.value != s.companies[id].companyName
      && NameInUse(s.companies - {id}, companyName.value)
    ensures r.Ok? <==>
      && id in s.companies
      && (Supplied(companyName) || ValidCompany(s.companies[id]))
      && !(Supplied(companyName) && companyName.value != s.companies[id].companyName
           && NameInUse(s.companies - {id}, companyName.value))
    ensures r.Ok? ==>
      && r.value.companies.Keys == s.companies.Keys
      && r.value.companies[id].companyName == (if Supplied(companyName) then companyName.value else s.companies[id].companyName)
      && r.value.companies[id].numberOfDepartments == s.companies[id].numberOfDepartments
      && r.value.companies[id].numberOfEmployees == s.companies[id].numberOfEmployees
      && KeepsOthers(s.companies, r.value.companies, {id})
      && r.value.departments == s.departments
      && r.value.employees == s.employees
      && r.value.nextId == s.nextId
  {
    if id !in s.companies then
      Err(NotFound(Companies))
    else
      var c := s.companies[id];
      var renamed := c.(companyName := Pick(companyName, c.companyName));
      if !ValidCompany(renamed) then
        Err(ValidationError)
      else if renamed.companyName != c.companyName && NameInUse(s.companies - {id}, renamed.companyName) then
        Err(DuplicateKey)
      else
        Ok(s.(companies := s.companies[id := renamed]))
  }

  /** `deleteCompany`: refused while either counter is positive; otherwise
      exactly that company is removed. */
  function DeleteCompany(s: Store, id: Id): (r: Result<Store, Error>)
    ensures r == Err(NotFound(Companies)) <==> id !in s.companies
    ensures r == Err(PreconditionFailed) <==>
      id in s.companies && (s.companies[id].numberOfDepartments > 0 || s.companies[id].numberOfEmployees > 0)
    ensures r.Ok? <==>
      id in s.companies && s.companies[id].numberOfDepartments <= 0 && s.companies[id].numberOfEmployees <= 0
    ensures r.Ok? ==>
      && r.value.companies.Keys == s.companies.Keys - {id}
      && KeepsOthers(s.companies, r.value.companies, {id})
      && r.value.departments == s.departments
      && r.value.employees == s.employees
      && r.value.nextId == s.nextId
  {
    if id !in s.companies then
      Err(NotFound(Companies))
    else if s.companies[id].numberOfDepartments > 0 || s.companies[id].numberOfEmployees > 0 then
      Err(PreconditionFailed)
    else
      Ok(s.(companies := s.companies - {id}))
  }
}
