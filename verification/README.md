# HR store: companies, departments and employees

A Dafny model of the business core of the `employee_System_Apis` REST service. The service stores three kinds of records, each in its own collection:

- **Companies** have a unique, required name and two denormalised counters: `numberOfDepartments` and `numberOfEmployees`.
- **Departments** reference a company and have a required name and an employee counter.
- **Employees** reference a company and a department. They carry five required text fields: name, email, mobile number, address and designation. The email and the mobile number must match fixed patterns. Each employee also has a hiring status from a four-state workflow and an optional `hiredOn` time.

The controllers create, read, update and delete these records. They keep the parent counters in step with their children:

- Creating a department or an employee increments its parents' counters.
- Deleting one decrements them, never below 0, and skips a parent that no longer exists.
- A delete is refused while the record still has children.
- An employee update is a partial update. A field that is absent or empty keeps its stored value. A status change must follow the transition table, and entering Hired stamps `hiredOn`.

## How the model reads

- The database is a `Store`: three `map<Id, Record>` values and the next id storage will hand out. Ids are never reused and never shared between collections.
- Every controller is a pure function from a store and a request to `Result<Store, Error>`. An error returns no new store, so a refused request changes nothing.
- `Requests.Serve` dispatches one write request. `Requests.Run` serves a sequence of them and keeps the old store after an error.
- Request strings are `Option<string>`. A string counts as *supplied* when it is present and non-empty, which is JavaScript truthiness. The `required` validator refuses a missing value and an empty one alike.
- Request references are `Option<Id>`. A missing reference finds nothing.
- Each operation checks in the same order as the code:
  1. the lookup (NotFound);
  2. the cross-reference check (InvalidReference);
  3. the transition table (InvalidTransition);
  4. the schema validators on `create`/`save` (ValidationError);
  5. the unique index on `companyName` (DuplicateKey).
- The email pattern `^\w+([\.-]?\w+)*@\w+([\.-]?\w+)*(\.\w{2,3})+$` is modelled exactly over ASCII `\w`:
  - `Validation.WordRuns` is `\w+([\.-]?\w+)*`;
  - `Validation.Groups` is `(\.\w{2,3})+`;
  - `Validation.DomainPatternIff` proves the group-repetition form equal to a simpler characterisation: word runs, then one final `.xx` or `.xxx`.
- Times are integer milliseconds, and the server clock is a parameter `now`.
- `daysEmployed` is `Math.round(|now - hiredOn| / 86400000)` computed on integers, with halves rounding up as `Math.round` does for non-negative values.

The global invariant is `Store.Consistent`:

- ids are issued below `nextId`;
- every reference resolves, and an employee's company is its department's company;
- every counter equals the number of live records that reference its owner;
- every record passes its validators;
- company names are unique;
- `hiredOn` is set exactly on Hired employees.

`Requests.ReachableStoresConsistent` proves that every store the API can reach from an empty database is consistent.

## Model

| member | source | states |
|---|---|---|
| CompanyController.GetCompany | src/controllers/companyController.js:18-30 | Returns the stored company when the id is present, otherwise NotFound(Companies); a read, so no store is produced |
| CompanyController.CreateCompany | src/controllers/companyController.js:35-43 | ValidationError exactly when no non-empty name is supplied; DuplicateKey exactly when another company already has the name; success exactly when a supplied name is unused; on success the new company gets a fresh id, the given name and both counters 0, and nothing else changes |
| CompanyController.UpdateCompany | src/controllers/companyController.js:48-62 | NotFound exactly for an unknown id; success exactly for a present id whose renamed record passes the validator and whose new name, if it changes, is unused; a supplied non-empty name replaces the stored one, otherwise the stored name is kept; DuplicateKey exactly when the name changes to one another company has; the counters, the other records and the id counter are untouched |
| CompanyController.DeleteCompany | src/controllers/companyController.js:67-88 | NotFound for an unknown id; PreconditionFailed exactly when either counter is positive; success exactly for a present company with both counters at or below 0, and then exactly that company is removed |
| DepartmentController.GetDepartment | src/controllers/departmentController.js:19-31 | Returns the stored department when present, otherwise NotFound(Departments) |
| DepartmentController.CreateDepartment | src/controllers/departmentController.js:36-59 | NotFound(Companies) exactly when the company reference is missing or unknown; ValidationError exactly when the name is not supplied; success exactly for an existing company and a supplied name; on success the new department has the given company and name and 0 employees, and only that company's department counter rises, by exactly 1 |
| DepartmentController.UpdateDepartment | src/controllers/departmentController.js:64-78 | NotFound for an unknown id; success exactly for a present id whose renamed record passes the validator; the name is replaced only by a supplied non-empty value; company reference, employee counter and all other records unchanged |
| DepartmentController.DeleteDepartment | src/controllers/departmentController.js:83-112 | NotFound for an unknown id; PreconditionFailed exactly when its employee counter is positive; success exactly for a present department whose counter is at or below 0, and then the department is removed and its company's counter (if the company exists) becomes max(0, n-1); employees untouched |
| EmployeeController.GetEmployee | src/controllers/employeeController.js:22-37 | Returns the stored employee when present, otherwise NotFound(Employees) |
| EmployeeController.CreateEmployee | src/controllers/employeeController.js:42-91 | NotFound(Departments) exactly when the department is missing or unknown; InvalidReference exactly when it belongs to another company than the one named; ValidationError exactly when a required field is missing or the email or mobile is malformed; success exactly for a known department of the named company and a complete request; on success the new employee has the given references and fields, status Application Received and no `hiredOn`; the department counter rises by 1, the company counter by 1 if the company exists, and nothing else changes |
| EmployeeController.UpdateEmployee | src/controllers/employeeController.js:96-147 | NotFound for an unknown id; InvalidTransition exactly when the status step is refused; ValidationError exactly when the step succeeds but the merged record fails a validator; no other error; on success every supplied non-empty text field replaces the stored one and the rest are kept, references never change, a status change follows the table, the stored status is the requested one, entering Hired stamps `hiredOn` with `now` and nothing else changes it, an employee in a terminal state keeps its status and stamp, and the result passes the validators |
| EmployeeController.NewEmployee | src/controllers/employeeController.js:65-74 | The record built from a create request has the given references, status Application Received and no `hiredOn`, and passes the schema's validators exactly when every required field is supplied and the email and mobile are well formed |
| EmployeeController.MergeFields | src/controllers/employeeController.js:135-139 | Each supplied non-empty text field replaces the stored one and the rest are kept; status, stamp and references are untouched; a valid record stays valid exactly when no malformed email or mobile number is supplied |
| EmployeeController.DeleteEmployee | src/controllers/employeeController.js:152-183 | NotFound exactly for an unknown id; otherwise only that employee goes, and the company and department employee counters, each only if its record exists, become max(0, n-1) |
| CompanyModel.NewCompany | src/models/Company.js:3-19 | A new company stores the given name and both counters take their default 0 |
| CompanyModel.AddFreshNameKeepsUnique | src/models/Company.js:4-8 | Writing a company whose name no other company has keeps company names unique, which is the guarantee of the unique index |
| DepartmentModel.NewDepartment | src/models/Department.js:3-19 | A new department stores the given company and name, and its counter takes the default 0 |
| EmployeeModel.ValidEmployee | src/models/Employee.js:19-40 | The schema validators of an employee: the five text fields are non-empty, the email matches its pattern and the mobile number matches its pattern |
| EmployeeModel.ParseStatus | src/models/Employee.js:14-18 | A recognised status string names exactly that enum value; an unrecognised one names none of the four |
| EmployeeModel.ParseStatusName | src/models/Employee.js:14-18 | Every enum value's stored name reads back as that value |
| EmployeeModel.DaysEmployed | src/models/Employee.js:51-59 | 0 unless `hiredOn` is set and the status is Hired; otherwise the whole number of days nearest to the elapsed time, halves rounding up |
| EmployeeModel.DaysEmployedNearest | src/models/Employee.js:51-59 | For a hire in the past, `daysEmployed` is within half a day of the elapsed time and never decreases as time goes on |
| Fields.Pick | src/controllers/employeeController.js:135-139 | The `supplied \|\| stored` rule: a supplied non-empty value wins, otherwise the stored value is kept, so a non-empty stored value stays non-empty |
| Fields.PickKeepsAndIsIdempotent | src/controllers/companyController.js:52 | An absent or empty field leaves the stored value, and applying the same partial update twice equals applying it once |
| Fields.DecrementFloor | src/controllers/employeeController.js:168 | `Math.max(0, n - 1)`: never negative, one less than a positive count, 0 from 0 or 1 |
| Workflow.AllowedTransitions | src/controllers/employeeController.js:110-115 | The `allowedTransitions` table: Application Received may go to Interview Scheduled or Not Accepted, Interview Scheduled to Hired or Not Accepted, and Hired and Not Accepted go nowhere |
| Workflow.TransitionTable | src/controllers/employeeController.js:110-115 | Hired and Not Accepted are exactly the terminal states; every allowed transition moves forward in the pipeline; only Interview Scheduled leads to Hired; Not Accepted is reachable from exactly the non-terminal states |
| Workflow.ApplyStatus | src/controllers/employeeController.js:106-132 | No status in the request changes nothing; the step fails exactly when a different status outside the table is requested, with InvalidTransition carrying both states; otherwise only status and `hiredOn` change, the stored status is the requested one, and `hiredOn` is stamped with `now` exactly on entry to Hired |
| Workflow.ApplyStatusKeepsStamp | src/controllers/employeeController.js:118-131 | A status step keeps `hiredOn` set exactly while Hired, and leaves an employee in a terminal state entirely unchanged |
| Workflow.HiringWalk | src/controllers/employeeController.js:110-131 | Application Received to Interview Scheduled to Hired succeeds and stamps `hiredOn` only at the last step; Hired back to Interview Scheduled fails with InvalidTransition |
| Validation.ValidEmail | src/models/Employee.js:26 | The email pattern as the regular expression reads it: word runs joined by single '.' or '-', one '@', then word runs followed by one or more `.xx` or `.xxx` groups |
| Validation.ValidMobile | src/models/Employee.js:31 | The mobile pattern: exactly ten ASCII digits and nothing else |
| Validation.DomainPatternIff | src/models/Employee.js:26 | The domain part `\w+([\.-]?\w+)*(\.\w{2,3})+` matches exactly the strings made of word runs followed by one final `.` and two or three word characters |
| Validation.EmailShape | src/models/Employee.js:26 | A valid email has exactly one '@' and ends with '.' followed by two or three word characters |
| Validation.MobileExamples | src/models/Employee.js:31 | Ten digits pass the mobile pattern; nine, eleven, or ten characters with a non-digit fail |
| Validation.EmailAccepted | src/models/Employee.js:26 | An ordinary dotted address with a three-letter top-level domain passes the email pattern |
| Validation.LongTldRejected | src/models/Employee.js:26 | An address whose top-level domain has four letters (`.info`) fails the email pattern |
| Validation.MissingTldRejected | src/models/Employee.js:26 | An address without a dotted top-level domain fails the email pattern |
| Validation.DoubleAtRejected | src/models/Employee.js:26 | An address with two '@' fails the email pattern |
| Counting.CountZero | src/controllers/companyController.js:77 | A counter of live children is 0 exactly when no live record references the parent |
| Consistency.CreateCompanyPreserves | src/controllers/companyController.js:35-43 | A successful create keeps the store consistent, including unique names |
| Consistency.UpdateCompanyPreserves | src/controllers/companyController.js:48-62 | A successful rename keeps the store consistent, including unique names |
| Consistency.DeleteCompanyPreserves | src/controllers/companyController.js:67-88 | A successful delete keeps the store consistent: no department or employee is left pointing at the removed company |
| Consistency.CreateDepartmentPreserves | src/controllers/departmentController.js:36-59 | A successful create keeps every counter equal to its live children |
| Consistency.UpdateDepartmentPreserves | src/controllers/departmentController.js:64-78 | A successful rename keeps the store consistent |
| Consistency.DeleteDepartmentPreserves | src/controllers/departmentController.js:83-112 | A successful delete keeps every counter equal to its live children and leaves no employee pointing at the removed department |
| Consistency.CreateEmployeePreserves | src/controllers/employeeController.js:42-91 | A successful create keeps both employee counters equal to their live children and the new record valid and unstamped |
| Consistency.UpdateEmployeePreserves | src/controllers/employeeController.js:96-147 | A successful update keeps the store consistent, including `hiredOn` set exactly on Hired employees |
| Consistency.DeleteEmployeePreserves | src/controllers/employeeController.js:152-183 | A successful delete keeps both employee counters equal to their live children |
| Guarantees.DeleteDepartmentRefusedIffStaffed | src/controllers/departmentController.js:91-95 | With exact counters, deleting a department is refused exactly when some live employee is in it |
| Guarantees.DeleteCompanyRefusedIffChildren | src/controllers/companyController.js:75-80 | With exact counters, deleting a company is refused exactly when some live department or employee references it |
| Guarantees.CreateEmployeeCountsBoth | src/controllers/employeeController.js:78-85 | When every department's company exists, a successful create always finds the company and raises its employee counter by 1 |
| Guarantees.UpdateEmployeeValidationIff | src/controllers/employeeController.js:134-141 | For a valid stored employee whose status step succeeds, the update fails validation exactly when it supplies a malformed email or mobile number |
| Guarantees.RenamesPassValidation | src/controllers/departmentController.js:68-69 | Renaming a valid company or department is never refused by a validator |
| Guarantees.CreateThenDeleteCompany | src/controllers/companyController.js:35-88 | Creating a company and deleting it again restores the store apart from the id counter |
| Guarantees.CreateThenDeleteDepartment | src/controllers/departmentController.js:46-105 | Creating a department and deleting it again restores the company's counter and the whole store apart from the id counter |
| Guarantees.CreateThenDeleteEmployee | src/controllers/employeeController.js:66-176 | Creating an employee and deleting it again restores both counters and the whole store apart from the id counter |
| Requests.Serve | src/app.js:17-19 | A refused request leaves the store exactly as it was; an accepted one yields the controller's new store; the next id never moves backwards, so no id is handed out twice |
| Requests.Run | src/app.js:17-19 | Serving a sequence of write requests never moves the next id backwards |
| Requests.ServePreserves | src/app.js:17-19 | Serving any write request, accepted or refused, keeps a consistent store consistent |
| Requests.RunPreserves | src/app.js:17-19 | Serving any sequence of write requests keeps a consistent store consistent |
| Requests.ReachableStoresConsistent | src/app.js:17-19 | The empty database is consistent, and so is every store reachable from it: no negative counter, every counter equal to its live children |
| Scenario.StaffedDeletesRefused | src/controllers/departmentController.js:91-95 | While Eng has an employee, deleting Eng or Acme is refused, and Acme cannot be deleted while Eng exists |
| Scenario.LifeCycleEndsEmpty | src/controllers/employeeController.js:42-183 | Creating Acme, Eng and an employee, attempting to delete Eng, then deleting the employee, Eng and Acme leaves an empty database, and the refused delete changes nothing |
| Scenario.AcmeLifeCycle | src/controllers/employeeController.js:42-91 | The same life cycle with a concrete employee whose email and mobile number pass the patterns |

## Left out

- Routing, authentication and role checks (`protect`, `authorize`), the application setup, and `tests/auth.test.js`: these are transport and identity concerns. The model starts where a request reaches a controller.
- `getCompanies`, `getDepartments` and `getEmployees`, and the `populate` joins of the reads: these list or decorate records and contain no business rule.
- HTTP status codes and messages: each failure maps to an `Error` constructor. The error middleware that assigns a status to validation and index errors is not part of this model.
- Mongoose persistence and `async` sequencing: each controller is one atomic step. The races between concurrent read-modify-write counter updates are not modelled.
- Partial failure in the middle of an operation is not modelled. The code creates a record and then saves the parent counters in separate writes, with no rollback. In the model the record and its counters change in one step, so no intermediate state exists.
- `createdAt`/`updatedAt` timestamps: they are written by storage and read by nothing.
- Malformed ids (a cast error in `findById`): ids are naturals, so every id is well formed and a missing one is simply absent.
- `Date` and floating point: times are integer milliseconds, and `daysEmployed` is integer arithmetic. This matches `Math.round` for every elapsed time that floating point represents exactly.
- The enum validator on `employeeStatus`: `Status` is a datatype, so a stored status is always one of the four values. An unrecognised requested status always differs from the current one, so the transition check refuses it before any save.
- `DuplicateKey` is an error kind of this model. The unique index on `companyName` refuses duplicate writes with a storage error that the named error kinds do not cover.
- Requests.Run: it states only that ids are never reused; what the sequence does to the records is stated by `Requests.RunPreserves` and by the per-controller contracts.
