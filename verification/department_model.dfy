/** The department schema: a required company reference, a required name,
    and an employee counter defaulting to 0. A department keeps no list of its
    employees; membership is known only from each employee's `department`. */
module DepartmentModel {
  import opened Fields

  datatype Department = Department(
    company: Id,
    departmentName: string,
    numberOfEmployees: int)

  /** What `Department.create({ company, departmentName })` stores. */
  function NewDepartment(company: Id, name: string): (d: Department)
    ensures d.company == company && d.departmentName == name
    ensures d.numberOfEmployees == 0
  {
    Department(company, name, 0)
  }

  /** The schema's validators: the name is required (the company reference
      is an `Id`, so it is always present). */
  predicate ValidDepartment(d: Department) {
    Required(d.departmentName)
  }
}
