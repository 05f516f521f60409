/** A whole life cycle against an empty database: company Acme, its
    department Eng, one employee; the department and the company cannot be
    deleted while they have children; after the employee goes, the
    department and then the company can be deleted and every counter is back
    at 0. */
module Scenario {
  import opened Results
  import opened Fields
  import opened Errors
  import opened Validation
  import opened CompanyModel
  import opened DepartmentModel
  import opened EmployeeModel
  import opened Store
  import opened CompanyController
  import opened DepartmentController
  import opened EmployeeController
  import opened Requests

  /** The employee hired into Eng at Acme (company 0, department 1). */
  const Jane: EmployeeBody := EmployeeBody(
    Some(0), Some(1), None, Some("Jane Doe"), Some("jane.doe@acme.com"),
    Some("0123456789"), Some("1 Main Street"), Some("Engineer"))

  /** A request that hires someone into Eng at Acme. */
  predicate HiresIntoEng(body: EmployeeBody) {
    body.company == Some(0) && body.department == Some(1) && Complete(body)
  }

  /** The store after each step; `e` is the hired employee's record. */
  const WithAcme: Store := Store(map[0 := Company("Acme", 0, 0)], map[], map[], 1)
  const WithEng: Store := Store(map[0 := Company("Acme", 1, 0)], map[1 := Department(0, "Eng", 0)], map[], 2)
  function WithHire(e: Employee): Store {
    Store(map[0 := Company("Acme", 1, 1)], map[1 := Department(0, "Eng", 1)], map[2 := e], 3)
  }
  const WithoutHire: Store := Store(map[0 := Company("Acme", 1, 0)], map[1 := Department(0, "Eng", 0)], map[], 3)
  const WithoutEng: Store := Store(map[0 := Company("Acme", 0, 0)], map[], map[], 3)
  const WithoutAcme: Store := Store(map[], map[], map[], 3)

  lemma CreateAcme()
    ensures CreateCompany(Empty, Some("Acme")) == Ok(WithAcme)
  {
  }

  lemma CreateEng()
    ensures CreateDepartment(WithAcme, DepartmentBody(Some(0), Some("Eng"))) == Ok(WithEng)
  {
    assert WithAcme.companies[0 := Company("Acme", 1, 0)] == WithEng.companies;
    assert WithAcme.departments[1 := Department(0, "Eng", 0)] == WithEng.departments;
  }

  /** Jane's request carries every field, well formed. */
  lemma JaneHiresIntoEng()
    ensures HiresIntoEng(Jane)
  {
    MobileExamples();
    EmailAccepted();
    assert Jane.email.value == "jane.doe@acme.com";
    assert Jane.mobileNumber.value == "0123456789";
    assert ValidEmail(Jane.email.value);
    assert ValidMobile(Jane.mobileNumber.value);
    assert Supplied(Jane.employeeName) && Supplied(Jane.address) && Supplied(Jane.designation);
    assert Complete(Jane);
  }

  /** Any complete request naming Eng at Acme is accepted; both counters go
      to 1. */
  lemma Hire(body: EmployeeBody)
    requires HiresIntoEng(body)
    ensures CreateEmployee(WithEng, body) == Ok(WithHire(NewEmployee(0, 1, body)))
  {
    var e := NewEmployee(0, 1, body);
    assert ValidEmployee(e);
    assert WithEng.companies[0 := Company("Acme", 1, 1)] == WithHire(e).companies;
    assert WithEng.departments[1 := Department(0, "Eng", 1)] == WithHire(e).departments;
    assert WithEng.employees[2 := e] == WithHire(e).employees;
  }

  /** While someone is on staff neither Eng nor Acme can be deleted, and Acme
      cannot be deleted while it has Eng. */
  lemma StaffedDeletesRefused(e: Employee)
    ensures DeleteDepartment(WithHire(e), 1) == Err(PreconditionFailed)
    ensures DeleteCompany(WithHire(e), 0) == Err(PreconditionFailed)
    ensures DeleteCompany(WithEng, 0) == Err(PreconditionFailed)
  {
  }

  /** Removing the hired employee brings both counters back to 0. */
  lemma Dismiss(e: Employee)
    requires e.company == 0 && e.department == 1
    ensures DeleteEmployee(WithHire(e), 2) == Ok(WithoutHire)
  {
    assert WithHire(e).employees - {2} == map[];
    assert WithHire(e).companies[0 := Company("Acme", 1, 0)] == WithoutHire.companies;
    assert WithHire(e).departments[1 := Department(0, "Eng", 0)] == WithoutHire.departments;
  }

  lemma RemoveEng()
    ensures DeleteDepartment(WithoutHire, 1) == Ok(WithoutEng)
  {
    assert WithoutHire.departments - {1} == map[];
    assert WithoutHire.companies[0 := Company("Acme", 0, 0)] == WithoutEng.companies;
  }

  lemma RemoveAcme()
    ensures DeleteCompany(WithoutEng, 0) == Ok(WithoutAcme)
  {
    assert WithoutEng.companies - {0} == map[];
  }

  /** The requests of the life cycle, in order, hiring with `hire`. */
  function LifeCycle(hire: EmployeeBody): seq<Request> {
    [ CreateCompanyRequest(Some("Acme")),
      CreateDepartmentRequest(DepartmentBody(Some(0), Some("Eng"))),
      CreateEmployeeRequest(hire),
      DeleteDepartmentRequest(1),
      DeleteEmployeeRequest(2),
      DeleteDepartmentRequest(1),
      DeleteCompanyRequest(0) ]
  }

  /** From the hire on: the refused delete changes nothing, then the
      employee, the department and the company go. */
  lemma LifeCycleFromHire(hire: EmployeeBody)
    ensures var e := NewEmployee(0, 1, hire);
      Run(WithHire(e), LifeCycle(hire)[3..]) == WithoutAcme
  {
    var r := LifeCycle(hire);
    var e := NewEmployee(0, 1, hire);
    assert Run(WithoutEng, r[6..]) == WithoutAcme by {
      RemoveAcme();
      assert r[6..][1..] == [];
    }
    assert Run(WithoutHire, r[5..]) == WithoutAcme by {
      RemoveEng();
      assert r[5..][1..] == r[6..];
    }
    assert Run(WithHire(e), r[4..]) == WithoutAcme by {
      Dismiss(e);
      assert r[4..][1..] == r[5..];
    }
    StaffedDeletesRefused(e);
    assert r[3..][1..] == r[4..];
  }

  /** Served in order, the life cycle ends in an empty database whose next
      id is 3; the refused delete of Eng changes nothing on the way. */
  lemma LifeCycleEndsEmpty(hire: EmployeeBody)
    requires HiresIntoEng(hire)
    ensures Run(Empty, LifeCycle(hire)) == WithoutAcme
  {
    var r := LifeCycle(hire);
    LifeCycleFromHire(hire);
    assert Run(WithEng, r[2..]) == WithoutAcme by {
      Hire(hire);
      assert r[2..][1..] == r[3..];
    }
    assert Run(WithAcme, r[1..]) == WithoutAcme by {
      CreateEng();
      assert r[1..][1..] == r[2..];
    }
    CreateAcme();
  }

  /** The life cycle with Jane as the hire. */
  lemma AcmeLifeCycle()
    ensures Run(Empty, LifeCycle(Jane)) == WithoutAcme
  {
    JaneHiresIntoEng();
    LifeCycleEndsEmpty(Jane);
  }
}
