/** The write routes of the API as one request type, served one after the
    other against the store. A refused request answers with its error and
    leaves the store as it was; every store the API can reach from an empty
    database is consistent. */
module Requests {
  import opened Results
  import opened Fields
  import opened Errors
  import opened Store
  import opened CompanyController
  import opened DepartmentController
  import opened EmployeeController
  import opened Consistency

  /** One write request; `now` is the server clock an employee update reads. */
  datatype Request =
    | CreateCompanyRequest(companyName: Option<string>)
    | UpdateCompanyRequest(id: Id, companyName: Option<string>)
    | DeleteCompanyRequest(id: Id)
    | CreateDepartmentRequest(department: DepartmentBody)
    | UpdateDepartmentRequest(id: Id, department: DepartmentBody)
    | DeleteDepartmentRequest(id: Id)
    | CreateEmployeeRequest(employee: EmployeeBody)
    | UpdateEmployeeRequest(id: Id, employee: EmployeeBody, now: int)
    | DeleteEmployeeRequest(id: Id)

  /** The controller the route dispatches to. */
  function Apply(s: Store, req: Request): Result<Store, Error> {
    match req
    case CreateCompanyRequest(name) => CreateCompany(s, name)
    case UpdateCompanyRequest(id, name) => UpdateCompany(s, id, name)
    case DeleteCompanyRequest(id) => DeleteCompany(s, id)
    case CreateDepartmentRequest(body) => CreateDepartment(s, body)
    case UpdateDepartmentRequest(id, body) => UpdateDepartment(s, id, body)
    case DeleteDepartmentRequest(id) => DeleteDepartment(s, id)
    case CreateEmployeeRequest(body) => CreateEmployee(s, body)
    case UpdateEmployeeRequest(id, body, now) => UpdateEmployee(s, id, body, now)
    case DeleteEmployeeRequest(id) => DeleteEmployee(s, id)
  }

  /** The store after serving `req`: the controller's new store, or the old
      one when the controller answered with an error, so a refused request
      changes nothing. Ids are never handed out twice: the next id never goes
      back. */
  function Serve(s: Store, req: Request): (t: Store)
    ensures Apply(s, req).Err? ==> t == s
    ensures Apply(s, req).Ok? ==> t == Apply(s, req).value
    ensures t.nextId >= s.nextId
  {
    match Apply(s, req)
    case Ok(next) => next
    case Err(_) => s
  }

  /** The store after serving `reqs` in order. */
  function Run(s: Store, reqs: seq<Request>): (t: Store)
    ensures t.nextId >= s.nextId
    decreases |reqs|
  {
    if reqs == [] then s else Run(Serve(s, reqs[0]), reqs[1..])
  }

  /** Serving any request keeps a consistent store consistent. */
  lemma ServePreserves(s: Store, req: Request)
    requires Consistent(s)
    ensures Consistent(Serve(s, req))
  {
    if Apply(s, req).Ok? {
      match req
      case CreateCompanyRequest(name) => CreateCompanyPreserves(s, name);
      case UpdateCompanyRequest(id, name) => UpdateCompanyPreserves(s, id, name);
      case DeleteCompanyRequest(id) => DeleteCompanyPreserves(s, id);
      case CreateDepartmentRequest(body) => CreateDepartmentPreserves(s, body);
      case UpdateDepartmentRequest(id, body) => UpdateDepartmentPreserves(s, id, body);
      case DeleteDepartmentRequest(id) => DeleteDepartmentPreserves(s, id);
      case CreateEmployeeRequest(body) => CreateEmployeePreserves(s, body);
      case UpdateEmployeeRequest(id, body, now) => UpdateEmployeePreserves(s, id, body, now);
      case DeleteEmployeeRequest(id) => DeleteEmployeePreserves(s, id);
    }
  }

  /** Serving a whole sequence keeps a consistent store consistent. */
  lemma {:induction false} RunPreserves(s: Store, reqs: seq<Request>)
    requires Consistent(s)
    ensures Consistent(Run(s, reqs))
    decreases |reqs|
  {
    if reqs != [] {
      ServePreserves(s, reqs[0]);
      RunPreserves(Serve(s, reqs[0]), reqs[1..]);
    }
  }

  /** Every store reachable from the empty database is consistent; in
      particular no counter is ever negative and every counter equals its
      live children. */
  lemma ReachableStoresConsistent(reqs: seq<Request>)
    ensures Consistent(Run(Empty, reqs))
    ensures CountersNonNegative(Run(Empty, reqs))
  {
    ConsistentBasics(Empty);
    RunPreserves(Empty, reqs);
    ConsistentBasics(Run(Empty, reqs));
  }
}
