/** The employee object the downstream service sends back (keys `id`,
    `employee_name`, `employee_salary`, `employee_age`, `employee_title`,
    `employee_email`), already decoded from its JSON envelope. */
module Outbound {
  import opened EmployeeModel

  datatype EmployeeApiResponse = EmployeeApiResponse(
    id: Uuid,
    name: string,
    salary: Int32,
    age: Int32,
    title: string,
    email: string)
  {
    /** Re-shapes the downstream record as the facade's Employee, field by field. */
    function ToEmployee(): (e: Employee)
      ensures e.id == id && e.name == name
      ensures e.salary == salary
      ensures e.age == age && e.title == title && e.email == email
    {
      Employee(id, name, salary, age, title, email)
    }
  }

  /** Reads an Employee back as the downstream record it was made from. */
  function FromEmployee(e: Employee): (r: EmployeeApiResponse)
    ensures r.ToEmployee() == e
  {
    EmployeeApiResponse(e.id, e.name, e.salary, e.age, e.title, e.email)
  }

  /** ToEmployee loses nothing: FromEmployee undoes it. */
  lemma ToEmployeeRoundTrip(r: EmployeeApiResponse)
    ensures FromEmployee(r.ToEmployee()) == r
  {
  }

  /** Two downstream records that differ in any field give different Employees. */
  lemma ToEmployeeInjective(a: EmployeeApiResponse, b: EmployeeApiResponse)
    requires a.ToEmployee() == b.ToEmployee()
    ensures a == b
  {
    ToEmployeeRoundTrip(a);
    ToEmployeeRoundTrip(b);
  }
}
