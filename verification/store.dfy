/** The HR store: three collections keyed by id, and the id the storage hands
    out next. The consistency invariant ties the denormalised counters to the
    records that reference each parent. */
module Store {
  import opened Fields
  import opened Counting
  import opened CompanyModel
  import opened DepartmentModel
  import opened EmployeeModel
  import opened Workflow

  datatype Store = Store(
    companies: map<Id, Company>,
    departments: map<Id, Department>,
    employees: map<Id, Employee>,
    nextId: Id)

  /** The store before any request. */
  const Empty: Store := Store(map[], map[], map[], 0)

  /** Each department's company reference. */
  function DepartmentCompanies(m: map<Id, Department>): map<Id, Id> {
    map k | k in m :: m[k].company
  }

  /** Each employee's company reference. */
  function EmployeeCompanies(m: map<Id, Employee>): map<Id, Id> {
    map k | k in m :: m[k].company
  }

  /** Each employee's department reference. */
  function EmployeeDepartments(m: map<Id, Employee>): map<Id, Id> {
    map k | k in m :: m[k].department
  }

  /** `after` keeps the records of `before` at every key outside `changed`. */
  ghost predicate KeepsOthers<V>(before: map<Id, V>, after: map<Id, V>, changed: set<Id>) {
    forall k :: k in before && k !in changed ==> k in after && after[k] == before[k]
  }

  /** Every stored id was issued already: the next one is fresh. */
  ghost predicate IdsIssued(s: Store) {
    && (forall k :: k in s.companies ==> k < s.nextId)
    && (forall k :: k in s.departments ==> k < s.nextId)
    && (forall k :: k in s.employees ==> k < s.nextId)
  }

  /** Every reference resolves, and an employee's company is the company of
      its department. */
  ghost predicate ReferencesResolve(s: Store) {
    && (forall d :: d in s.departments ==> s.departments[d].company in s.companies)
    && (forall e :: e in s.employees ==>
          && s.employees[e].department in s.departments
          && s.departments[s.employees[e].department].company == s.employees[e].company)
  }

  /** Each company's counters equal the number of live departments and of
      live employees referencing it. */
  ghost predicate CompanyCountersExact(s: Store) {
    forall c :: c in s.companies ==>
      && s.companies[c].numberOfDepartments == Count(DepartmentCompanies(s.departments), c)
      && s.companies[c].numberOfEmployees == Count(EmployeeCompanies(s.employees), c)
  }

  /** Each department's counter equals the number of live employees
      referencing it. */
  ghost predicate DepartmentCountersExact(s: Store) {
    forall d :: d in s.departments ==>
      s.departments[d].numberOfEmployees == Count(EmployeeDepartments(s.employees), d)
  }

  /** Every counter equals the number of live records referencing its owner. */
  ghost predicate CountersExact(s: Store) {
    CompanyCountersExact(s) && DepartmentCountersExact(s)
  }

  /** Every employee passes the schema's validators and has `hiredOn` set
      exactly when Hired. */
  ghost predicate EmployeesValid(m: map<Id, Employee>) {
    forall e :: e in m ==> ValidEmployee(m[e]) && HiringStamped(m[e])
  }

  /** Every record passes its schema's validators, company names are unique,
      and `hiredOn` is set exactly on Hired employees. */
  ghost predicate RecordsValid(s: Store) {
    && (forall c :: c in s.companies ==> ValidCompany(s.companies[c]))
    && NamesUnique(s.companies)
    && (forall d :: d in s.departments ==> ValidDepartment(s.departments[d]))
    && EmployeesValid(s.employees)
  }

  ghost predicate Consistent(s: Store) {
    IdsIssued(s) && ReferencesResolve(s) && CountersExact(s) && RecordsValid(s)
  }

  /** No counter is negative. */
  ghost predicate CountersNonNegative(s: Store) {
    && (forall c :: c in s.companies ==>
          s.companies[c].numberOfDepartments >= 0 && s.companies[c].numberOfEmployees >= 0)
    && (forall d :: d in s.departments ==> s.departments[d].numberOfEmployees >= 0)
  }

  /** The empty store is consistent, and in a consistent store no counter is
      negative. */
  lemma ConsistentBasics(s: Store)
    ensures Consistent(Empty)
    ensures Consistent(s) ==> CountersNonNegative(s)
  {
  }

  lemma DepartmentCompaniesUpdate(m: map<Id, Department>, k: Id, d: Department)
    ensures DepartmentCompanies(m[k := d]) == DepartmentCompanies(m)[k := d.company]
  {
  }

  lemma DepartmentCompaniesRemove(m: map<Id, Department>, k: Id)
    ensures DepartmentCompanies(m - {k}) == DepartmentCompanies(m) - {k}
  {
  }

  lemma EmployeeProjectionsUpdate(m: map<Id, Employee>, k: Id, e: Employee)
    ensures EmployeeCompanies(m[k := e]) == EmployeeCompanies(m)[k := e.company]
    ensures EmployeeDepartments(m[k := e]) == EmployeeDepartments(m)[k := e.department]
  {
  }

  lemma EmployeeProjectionsRemove(m: map<Id, Employee>, k: Id)
    ensures EmployeeCompanies(m - {k}) == EmployeeCompanies(m) - {k}
    ensures EmployeeDepartments(m - {k}) == EmployeeDepartments(m) - {k}
  {
  }

  /** Rewriting a key with the same parent leaves the projection as it was. */
  lemma SameParent(parents: map<Id, Id>, k: Id, p: Id)
    requires k in parents && parents[k] == p
    ensures parents[k := p] == parents
  {
  }
}
